/** Dense integer matrices and vectors: the small part of a linear-algebra
    library the score engine relies on (identity, single-entry update,
    row-vector times matrix, dot product). Entries are exact integers. */
module Matrices {

  type Matrix = seq<seq<int>>

  /** `a` is an n-by-n matrix. */
  predicate IsSquare(a: Matrix, n: nat) {
    |a| == n && forall i :: 0 <= i < n ==> |a[i]| == n
  }

  /** The n-by-n identity matrix. */
  function Identity(n: nat): (a: Matrix)
    ensures IsSquare(a, n)
    ensures forall i, j :: 0 <= i < n && 0 <= j < n ==> a[i][j] == if i == j then 1 else 0
  {
    seq(n, i => seq(n, j => if i == j then 1 else 0))
  }

  /** The row vector of n ones. */
  function Ones(n: nat): (v: seq<int>)
    ensures |v| == n
    ensures forall i :: 0 <= i < n ==> v[i] == 1
  {
    seq(n, _ => 1)
  }

  /** `a` with entry (i, j) replaced by x and every other entry kept. */
  function Set(a: Matrix, n: nat, i: nat, j: nat, x: int): (b: Matrix)
    requires IsSquare(a, n) && i < n && j < n
    ensures IsSquare(b, n)
    ensures b[i][j] == x
    ensures forall r, c :: 0 <= r < n && 0 <= c < n && (r != i || c != j) ==> b[r][c] == a[r][c]
  {
    a[i := a[i][j := x]]
  }

  /** Two n-by-n matrices with the same entries are the same matrix. */
  lemma SameEntries(a: Matrix, b: Matrix, n: nat)
    requires IsSquare(a, n) && IsSquare(b, n)
    requires forall i, j :: 0 <= i < n && 0 <= j < n ==> a[i][j] == b[i][j]
    ensures a == b
  {
    forall i | 0 <= i < n
      ensures a[i] == b[i]
    {
      assert forall j :: 0 <= j < n ==> a[i][j] == b[i][j];
    }
  }

  function Sum(v: seq<int>): int {
    if v == [] then 0 else v[0] + Sum(v[1..])
  }

  function Dot(u: seq<int>, w: seq<int>): int
    requires |u| == |w|
  {
    if u == [] then 0 else u[0] * w[0] + Dot(u[1..], w[1..])
  }

  /** Entry j of the row vector v·a, counting only rows 0 .. rows-1. */
  function ColumnDot(v: seq<int>, a: Matrix, n: nat, j: nat, rows: nat): int
    requires IsSquare(a, n) && |v| == n && j < n && rows <= n
  {
    if rows == 0 then 0 else ColumnDot(v, a, n, j, rows - 1) + v[rows - 1] * a[rows - 1][j]
  }

  /** The row vector v·a. */
  function RowTimes(v: seq<int>, a: Matrix, n: nat): (u: seq<int>)
    requires IsSquare(a, n) && |v| == n
    ensures |u| == n
  {
    seq(n, j requires 0 <= j < n => ColumnDot(v, a, n, j, n))
  }

  /** The scalar v·a·w, associated as (v·a)·w. */
  function Product(v: seq<int>, a: Matrix, w: seq<int>): int
    requires IsSquare(a, |w|) && |v| == |w|
  {
    Dot(RowTimes(v, a, |w|), w)
  }

  /** The row vector v·a, one column at a time. */
  method MultRow(v: seq<int>, a: Matrix, n: nat) returns (u: seq<int>)
    requires IsSquare(a, n) && |v| == n
    ensures u == RowTimes(v, a, n)
  {
    u := [];
    for j := 0 to n
      invariant |u| == j
      invariant forall c :: 0 <= c < j ==> u[c] == ColumnDot(v, a, n, c, n)
    {
      var s := 0;
      for i := 0 to n
        invariant s == ColumnDot(v, a, n, j, i)
      {
        s := s + v[i] * a[i][j];
      }
      u := u + [s];
    }
  }

  /** The dot product u·w, left to right. */
  method MultDot(u: seq<int>, w: seq<int>) returns (s: int)
    requires |u| == |w|
    ensures s == Dot(u, w)
  {
    s := 0;
    for j := 0 to |u|
      invariant s + Dot(u[j..], w[j..]) == Dot(u, w)
    {
      assert u[j..][1..] == u[j + 1..] && w[j..][1..] == w[j + 1..];
      s := s + u[j] * w[j];
    }
  }

  /** Changing entry (i, j) changes only column j of v·a, by v[i] times the change. */
  lemma {:induction false} ColumnDotAfterSet(v: seq<int>, a: Matrix, n: nat, i: nat, j: nat, x: int, c: nat, rows: nat)
    requires IsSquare(a, n) && |v| == n && i < n && j < n && c < n && rows <= n
    ensures ColumnDot(v, Set(a, n, i, j, x), n, c, rows)
            == ColumnDot(v, a, n, c, rows) + (if c == j && i < rows then v[i] * (x - a[i][j]) else 0)
  {
    if rows > 0 {
      ColumnDotAfterSet(v, a, n, i, j, x, c, rows - 1);
    }
  }

  /** Adding d to entry j of u adds d·w[j] to u·w. */
  lemma {:induction false} DotAfterUpdate(u: seq<int>, w: seq<int>, j: nat, d: int)
    requires |u| == |w| && j < |u|
    ensures Dot(u[j := u[j] + d], w) == Dot(u, w) + d * w[j]
  {
    var u' := u[j := u[j] + d];
    if j == 0 {
      assert u'[1..] == u[1..];
    } else {
      assert u'[1..] == u[1..][j - 1 := u[j] + d];
      DotAfterUpdate(u[1..], w[1..], j - 1, d);
    }
  }

  /** Setting entry (i, j) to x changes v·a·w by v[i]·(x - a[i][j])·w[j]. */
  lemma ProductAfterSet(v: seq<int>, a: Matrix, w: seq<int>, i: nat, j: nat, x: int)
    requires IsSquare(a, |w|) && |v| == |w| && i < |w| && j < |w|
    ensures Product(v, Set(a, |w|, i, j, x), w) == Product(v, a, w) + v[i] * (x - a[i][j]) * w[j]
  {
    var n := |w|;
    var d := v[i] * (x - a[i][j]);
    var u := RowTimes(v, a, n);
    var u' := RowTimes(v, Set(a, n, i, j, x), n);
    forall c | 0 <= c < n
      ensures u'[c] == u[j := u[j] + d][c]
    {
      ColumnDotAfterSet(v, a, n, i, j, x, c, n);
    }
    assert u' == u[j := u[j] + d];
    DotAfterUpdate(u, w, j, d);
  }

  lemma {:induction false} ColumnDotOnesIdentity(n: nat, c: nat, rows: nat)
    requires c < n && rows <= n
    ensures ColumnDot(Ones(n), Identity(n), n, c, rows) == if c < rows then 1 else 0
  {
    if rows > 0 {
      ColumnDotOnesIdentity(n, c, rows - 1);
    }
  }

  lemma {:induction false} DotOnes(w: seq<int>)
    ensures Dot(Ones(|w|), w) == Sum(w)
  {
    if w != [] {
      assert Ones(|w|)[1..] == Ones(|w[1..]|);
      DotOnes(w[1..]);
    }
  }

  /** With the identity matrix, J·A·F is the plain sum of F. */
  lemma ProductOnesIdentity(w: seq<int>)
    ensures Product(Ones(|w|), Identity(|w|), w) == Sum(w)
  {
    var n := |w|;
    forall c | 0 <= c < n
      ensures RowTimes(Ones(n), Identity(n), n)[c] == Ones(n)[c]
    {
      ColumnDotOnesIdentity(n, c, n);
    }
    assert RowTimes(Ones(n), Identity(n), n) == Ones(n);
    DotOnes(w);
  }
}
