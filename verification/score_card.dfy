/** The ten-pin bowling score engine: from the flat sequence of pins knocked
    down by each ball thrown, build the bonus matrix A (identity plus one 1
    for every throw that counts again as a bonus) and return J·A·F. */
module ScoreCard {
  import opened Matrices

  const MaxPinsPerFrame: int := 10
  const TotalFrames: nat := 10
  const BonusFramesPerStrike: nat := 2
  const BonusFramesPerSpare: nat := 1

  /** Why a game could not be scored: the spare test read a throw that is not there. */
  datatype ScoreError = ReadPastEnd(index: nat)

  datatype Result<+T> = Success(value: T) | Failure(error: ScoreError) {
    predicate IsFailure() {
      Failure?
    }

    function PropagateFailure<U>(): Result<U>
      requires Failure?
    {
      Failure(error)
    }

    function Extract(): T
      requires Success?
    {
      value
    }
  }

  /** An off-diagonal 1 of the bonus matrix: throw `col` counts again in row `row`. */
  datatype Mark = Mark(row: nat, col: nat)

  /** The pins of throw i, or 0 for a throw that was never made. */
  function ThrowAt(f: seq<int>, i: nat): int {
    if i < |f| then f[i] else 0
  }

  /** The pins of throws i, i+1, ..., |f|-1. */
  function SumFrom(f: seq<int>, i: nat): int
    decreases |f| - i
  {
    if i < |f| then f[i] + SumFrom(f, i + 1) else 0
  }

  // ---------------------------------------------------------------------
  // Frames: where each of the first nine frames starts

  /** How many throws a frame among the first nine uses: one for a strike, two otherwise. */
  function FrameLength(f: seq<int>, b: nat): nat
    requires b < |f|
  {
    if f[b] == MaxPinsPerFrame then 1 else 2
  }

  /** The first-ball indices of the frames visited from cursor b with k frames
      already behind; the visit stops after nine frames or at the end of the throws. */
  function FrameStarts(f: seq<int>, b: nat, k: nat): (starts: seq<nat>)
    decreases TotalFrames - k
    ensures k < TotalFrames ==> |starts| <= TotalFrames - 1 - k
    ensures |starts| > 0 ==> starts[0] == b
    ensures forall i :: 0 <= i < |starts| ==> b <= starts[i] < |f|
  {
    if b < |f| && k < TotalFrames - 1 then [b] + FrameStarts(f, b + FrameLength(f, b), k + 1) else []
  }

  /** The cursor when the visit stops: the first ball of the tenth frame, or past the last throw. */
  function WalkEnd(f: seq<int>, b: nat, k: nat): (e: nat)
    decreases TotalFrames - k
    ensures b <= e
  {
    if b < |f| && k < TotalFrames - 1 then WalkEnd(f, b + FrameLength(f, b), k + 1) else b
  }

  /** The visit ends right after its last frame, and it stops before nine frames
      only when the cursor has run past the last throw. */
  lemma {:induction false} WalkEndAfterLastFrame(f: seq<int>, b: nat, k: nat)
    ensures var starts := FrameStarts(f, b, k);
            && (|starts| == 0 ==> WalkEnd(f, b, k) == b)
            && (|starts| > 0 ==> WalkEnd(f, b, k) == starts[|starts| - 1] + FrameLength(f, starts[|starts| - 1]))
            && (k < TotalFrames && |starts| < TotalFrames - 1 - k ==> |f| <= WalkEnd(f, b, k))
    decreases TotalFrames - k
  {
    if b < |f| && k < TotalFrames - 1 {
      var b' := b + FrameLength(f, b);
      WalkEndAfterLastFrame(f, b', k + 1);
      assert FrameStarts(f, b, k) == [b] + FrameStarts(f, b', k + 1);
    }
  }

  /** Every frame in `starts` that does not open with a strike has its second ball in the throws. */
  predicate SecondBallsPresent(f: seq<int>, starts: seq<nat>) {
    forall s :: s in starts ==> s < |f| && (f[s] != MaxPinsPerFrame ==> s + 1 < |f|)
  }

  /** The second balls of one more frame are present exactly when that frame's
      and the others' are. */
  lemma SecondBallsPresentCons(f: seq<int>, b: nat, rest: seq<nat>)
    ensures SecondBallsPresent(f, [b] + rest) <==> (b < |f| && (f[b] != MaxPinsPerFrame ==> b + 1 < |f|)) && SecondBallsPresent(f, rest)
  {
    assert b in [b] + rest;
    assert forall s :: s in rest ==> s in [b] + rest;
  }

  /** Every frame among the first nine that is not a strike has its second ball in the throws. */
  predicate SpareReadsInBounds(f: seq<int>) {
    SecondBallsPresent(f, FrameStarts(f, 0, 0))
  }

  /** The marks the scoring rules call for at the frame whose first ball is throw s:
      a strike marks the next two throws on its own row; a spare marks the next
      throw on the row of its second ball; an open frame marks nothing. */
  predicate FrameMark(f: seq<int>, s: nat, m: Mark) {
    && s < |f|
    && m.col < |f|
    && if f[s] == MaxPinsPerFrame then
         m.row == s && s < m.col <= s + BonusFramesPerStrike
       else
         s + 1 < |f| && f[s] + f[s + 1] == MaxPinsPerFrame
         && m.row == s + 1 && m.col == s + 1 + BonusFramesPerSpare
  }

  // ---------------------------------------------------------------------
  // Bonus marks and the walk that produces them

  /** x comes before y in row-major order. */
  predicate Before(x: Mark, y: Mark) {
    x.row < y.row || (x.row == y.row && x.col < y.col)
  }

  /** The marks are in strictly increasing row-major order, so none repeats. */
  predicate Ordered(ms: seq<Mark>) {
    forall i, j :: 0 <= i < j < |ms| ==> Before(ms[i], ms[j])
  }

  /** The marks one call of addBonus writes: (row, row + bb) for bb = 1 .. count,
      in that order, dropping every column at or past n. */
  function BonusMarks(row: nat, count: nat, n: nat): seq<Mark> {
    if count == 0 then []
    else BonusMarks(row, count - 1, n) + (if row + count < n then [Mark(row, row + count)] else [])
  }

  /** One call of addBonus marks exactly the columns row + 1 .. row + count of
      its row that lie inside the matrix, each once and in increasing order. */
  lemma {:induction false} BonusMarksShape(row: nat, count: nat, n: nat)
    ensures var ms := BonusMarks(row, count, n);
            && (forall m :: m in ms ==> m.row == row && row < m.col <= row + count && m.col < n)
            && (forall c :: row < c <= row + count && c < n ==> Mark(row, c) in ms)
            && Ordered(ms)
  {
    if count > 0 {
      var prev := BonusMarks(row, count - 1, n);
      var tail := if row + count < n then [Mark(row, row + count)] else [];
      BonusMarksShape(row, count - 1, n);
      assert BonusMarks(row, count, n) == prev + tail;
      OrderedConcat(prev, tail);
    }
  }

  /** The marks populateScoreMatrix writes for the frame whose first ball is
      throw b: the strike bonus on row b, the spare bonus on row b + 1, or none. */
  function FrameBonus(f: seq<int>, b: nat): seq<Mark>
    requires b < |f| && (f[b] != MaxPinsPerFrame ==> b + 1 < |f|)
  {
    if f[b] == MaxPinsPerFrame then BonusMarks(b, BonusFramesPerStrike, |f|)
    else if f[b] + f[b + 1] == MaxPinsPerFrame then BonusMarks(b + 1, BonusFramesPerSpare, |f|)
    else []
  }

  /** A frame's marks lie on the frame's own rows, at most two columns right of
      the diagonal and inside the matrix, in row-major order. */
  lemma FrameBonusShape(f: seq<int>, b: nat)
    requires b < |f| && (f[b] != MaxPinsPerFrame ==> b + 1 < |f|)
    ensures forall m :: m in FrameBonus(f, b) ==>
              b <= m.row < b + FrameLength(f, b) && m.row < m.col <= m.row + BonusFramesPerStrike && m.col < |f|
    ensures Ordered(FrameBonus(f, b))
  {
    BonusMarksShape(b, BonusFramesPerStrike, |f|);
    BonusMarksShape(b + 1, BonusFramesPerSpare, |f|);
  }

  /** The marks written for one frame are exactly those the scoring rules call for. */
  lemma FrameBonusMarks(f: seq<int>, b: nat)
    requires b < |f| && (f[b] != MaxPinsPerFrame ==> b + 1 < |f|)
    ensures forall m :: m in FrameBonus(f, b) <==> FrameMark(f, b, m)
  {
    BonusMarksShape(b, BonusFramesPerStrike, |f|);
    BonusMarksShape(b + 1, BonusFramesPerSpare, |f|);
  }

  /** The frame walker of populateScoreMatrix, from cursor b with k frames behind:
      the marks it writes, or the failed read of the missing second ball of a
      frame that starts on the last throw and is not a strike. */
  function Walk(f: seq<int>, b: nat, k: nat): (r: Result<seq<Mark>>)
    decreases TotalFrames - k
    ensures r.Failure? ==> r.error == ReadPastEnd(|f|)
  {
    if !(b < |f| && k < TotalFrames - 1) then
      Success([])
    else if f[b] != MaxPinsPerFrame && b + 1 >= |f| then
      Failure(ReadPastEnd(b + 1))
    else
      var rest :- Walk(f, b + FrameLength(f, b), k + 1);
      Success(FrameBonus(f, b) + rest)
  }

  /** Every mark of a successful walk lies above the diagonal, at most two
      columns right of it, inside the matrix, and on a row of the first nine frames. */
  lemma {:induction false} WalkMarksShape(f: seq<int>, b: nat, k: nat)
    requires Walk(f, b, k).Success?
    ensures forall m :: m in Walk(f, b, k).value ==>
              b <= m.row < m.col <= m.row + BonusFramesPerStrike && m.col < |f| && m.row < WalkEnd(f, b, k)
    decreases TotalFrames - k
  {
    if b < |f| && k < TotalFrames - 1 {
      var b' := b + FrameLength(f, b);
      assert Walk(f, b, k).value == FrameBonus(f, b) + Walk(f, b', k + 1).value;
      assert WalkEnd(f, b, k) == WalkEnd(f, b', k + 1);
      FrameBonusShape(f, b);
      WalkMarksShape(f, b', k + 1);
    }
  }

  lemma OrderedConcat(xs: seq<Mark>, ys: seq<Mark>)
    requires Ordered(xs) && Ordered(ys)
    requires forall x, y :: x in xs && y in ys ==> Before(x, y)
    ensures Ordered(xs + ys)
  {
    var zs := xs + ys;
    forall i, j | 0 <= i < j < |zs|
      ensures Before(zs[i], zs[j])
    {
      if j < |xs| {
        assert Before(xs[i], xs[j]);
      } else if i >= |xs| {
        assert Before(ys[i - |xs|], ys[j - |xs|]);
      } else {
        assert zs[i] in xs && zs[j] in ys;
      }
    }
  }

  /** One frame of a successful walk: the frame's second ball, if it needs one,
      is there, the rest of the walk succeeds, and the frame's marks come first. */
  lemma WalkValueStep(f: seq<int>, b: nat, k: nat)
    requires Walk(f, b, k).Success? && b < |f| && k < TotalFrames - 1
    ensures f[b] != MaxPinsPerFrame ==> b + 1 < |f|
    ensures Walk(f, b + FrameLength(f, b), k + 1).Success?
    ensures Walk(f, b, k).value == FrameBonus(f, b) + Walk(f, b + FrameLength(f, b), k + 1).value
  {
  }

  /** Every mark of a frame comes before every mark the rest of the walk writes. */
  lemma FrameBeforeRest(f: seq<int>, b: nat, k: nat)
    requires b < |f| && k < TotalFrames - 1 && (f[b] != MaxPinsPerFrame ==> b + 1 < |f|)
    requires Walk(f, b + FrameLength(f, b), k + 1).Success?
    ensures forall x, y :: x in FrameBonus(f, b) && y in Walk(f, b + FrameLength(f, b), k + 1).value ==> Before(x, y)
  {
    FrameBonusShape(f, b);
    WalkMarksShape(f, b + FrameLength(f, b), k + 1);
  }

  /** The walker writes its marks in row-major order, so no matrix entry is written twice. */
  lemma {:induction false} WalkOrdered(f: seq<int>, b: nat, k: nat)
    requires Walk(f, b, k).Success?
    ensures Ordered(Walk(f, b, k).value)
    decreases TotalFrames - k
  {
    if b < |f| && k < TotalFrames - 1 {
      var b' := b + FrameLength(f, b);
      WalkValueStep(f, b, k);
      WalkOrdered(f, b', k + 1);
      FrameBonusShape(f, b);
      FrameBeforeRest(f, b, k);
      OrderedConcat(FrameBonus(f, b), Walk(f, b', k + 1).value);
    }
  }

  /** The walk fails exactly when some non-strike frame among the first nine
      starts on the last throw, so that its second ball is missing. */
  lemma {:induction false} WalkSucceedsIff(f: seq<int>, b: nat, k: nat)
    ensures Walk(f, b, k).Success? <==> SecondBallsPresent(f, FrameStarts(f, b, k))
    decreases TotalFrames - k
  {
    if b < |f| && k < TotalFrames - 1 {
      var b' := b + FrameLength(f, b);
      var rest := FrameStarts(f, b', k + 1);
      calc {
        Walk(f, b, k).Success?;
      == { WalkSucceedsStep(f, b, k); }
        (f[b] != MaxPinsPerFrame ==> b + 1 < |f|) && Walk(f, b', k + 1).Success?;
      == { WalkSucceedsIff(f, b', k + 1); }
        (f[b] != MaxPinsPerFrame ==> b + 1 < |f|) && SecondBallsPresent(f, rest);
      == { SecondBallsPresentCons(f, b, rest); }
        SecondBallsPresent(f, [b] + rest);
      == { assert FrameStarts(f, b, k) == [b] + rest; }
        SecondBallsPresent(f, FrameStarts(f, b, k));
      }
    } else {
      assert FrameStarts(f, b, k) == [];
    }
  }

  /** One frame of the walk: it goes on exactly when the frame's second ball,
      if it needs one, is there, and then succeeds when the rest of the walk does. */
  lemma WalkSucceedsStep(f: seq<int>, b: nat, k: nat)
    requires b < |f| && k < TotalFrames - 1
    ensures Walk(f, b, k).Success? <==> (f[b] != MaxPinsPerFrame ==> b + 1 < |f|) && Walk(f, b + FrameLength(f, b), k + 1).Success?
  {
  }

  /** The walker writes exactly the marks the scoring rules call for at the
      first nine frames, and no others. */
  lemma {:induction false} WalkMarksFromFrames(f: seq<int>, b: nat, k: nat)
    requires Walk(f, b, k).Success?
    ensures forall m :: m in Walk(f, b, k).value <==> exists s :: s in FrameStarts(f, b, k) && FrameMark(f, s, m)
    decreases TotalFrames - k
  {
    if b < |f| && k < TotalFrames - 1 {
      var b' := b + FrameLength(f, b);
      assert FrameStarts(f, b, k) == [b] + FrameStarts(f, b', k + 1);
      assert Walk(f, b, k).value == FrameBonus(f, b) + Walk(f, b', k + 1).value;
      WalkMarksFromFrames(f, b', k + 1);
      FrameBonusMarks(f, b);
      ConsFrameMarks(f, b, FrameStarts(f, b', k + 1), FrameBonus(f, b), Walk(f, b', k + 1).value);
    } else {
      assert FrameStarts(f, b, k) == [] && Walk(f, b, k).value == [];
    }
  }

  /** Marks for frame b followed by marks for the frames `rest` are the marks for [b] + rest. */
  lemma ConsFrameMarks(f: seq<int>, b: nat, rest: seq<nat>, own: seq<Mark>, restMarks: seq<Mark>)
    requires forall m :: m in own <==> FrameMark(f, b, m)
    requires forall m :: m in restMarks <==> exists s :: s in rest && FrameMark(f, s, m)
    ensures forall m :: m in own + restMarks <==> exists s :: s in [b] + rest && FrameMark(f, s, m)
  {
    forall m
      ensures m in own + restMarks <==> exists s :: s in [b] + rest && FrameMark(f, s, m)
    {
      if m in restMarks {
        var s :| s in rest && FrameMark(f, s, m);
        assert s in [b] + rest;
      }
      if m in own {
        assert b in [b] + rest;
      }
    }
  }

  // ---------------------------------------------------------------------
  // The bonus matrix

  predicate InRange(ms: seq<Mark>, n: nat) {
    forall m :: m in ms ==> m.row < n && m.col < n
  }

  /** `a` after writing a 1 at every mark inside the n-by-n matrix, in order. */
  function WriteMarks(a: Matrix, n: nat, ms: seq<Mark>): (b: Matrix)
    requires IsSquare(a, n)
    ensures IsSquare(b, n)
    decreases |ms|
  {
    if ms == [] then a
    else
      var init, last := ms[..|ms| - 1], ms[|ms| - 1];
      var b := WriteMarks(a, n, init);
      if last.row < n && last.col < n then Set(b, n, last.row, last.col, 1) else b
  }

  /** Writing the marks sets every marked entry to 1 and leaves every other entry as it was. */
  lemma {:induction false} WriteMarksEntries(a: Matrix, n: nat, ms: seq<Mark>)
    requires IsSquare(a, n)
    ensures forall i, j :: 0 <= i < n && 0 <= j < n ==>
              WriteMarks(a, n, ms)[i][j] == if Mark(i, j) in ms then 1 else a[i][j]
    decreases |ms|
  {
    if ms != [] {
      var init, last := ms[..|ms| - 1], ms[|ms| - 1];
      assert ms == init + [last];
      WriteMarksEntries(a, n, init);
    }
  }

  /** The bonus matrix: the n-by-n identity with a 1 at every mark. */
  function BonusMatrix(n: nat, ms: seq<Mark>): Matrix {
    WriteMarks(Identity(n), n, ms)
  }

  /** The matrix is unit upper-triangular with 0/1 entries, and every
      off-diagonal 1 sits at most two columns right of the diagonal. */
  predicate IsBonusShaped(a: Matrix, n: nat)
    requires IsSquare(a, n)
  {
    forall i, j :: 0 <= i < n && 0 <= j < n ==>
      && (a[i][j] == 0 || a[i][j] == 1)
      && (i == j ==> a[i][j] == 1)
      && (j < i ==> a[i][j] == 0)
      && (a[i][j] == 1 && i < j ==> j <= i + BonusFramesPerStrike)
  }

  /** The pins of every marked throw, once per mark. */
  function BonusSum(f: seq<int>, ms: seq<Mark>): int
    decreases |ms|
  {
    if ms == [] then 0 else BonusSum(f, ms[..|ms| - 1]) + ThrowAt(f, ms[|ms| - 1].col)
  }

  lemma {:induction false} BonusSumConcat(f: seq<int>, xs: seq<Mark>, ys: seq<Mark>)
    ensures BonusSum(f, xs + ys) == BonusSum(f, xs) + BonusSum(f, ys)
    decreases |ys|
  {
    if ys != [] {
      var ys', y := ys[..|ys| - 1], ys[|ys| - 1];
      assert (xs + ys)[..|xs + ys| - 1] == xs + ys';
      assert (xs + ys)[|xs + ys| - 1] == y;
      BonusSumConcat(f, xs, ys');
      assert BonusSum(f, xs + ys) == BonusSum(f, xs + ys') + ThrowAt(f, y.col);
      assert BonusSum(f, ys) == BonusSum(f, ys') + ThrowAt(f, y.col);
    } else {
      assert xs + ys == xs;
    }
  }

  /** Writing distinct, not yet set marks into `a` adds the pins of each marked throw to J·A·F. */
  lemma {:induction false} WriteMarksProduct(a: Matrix, f: seq<int>, ms: seq<Mark>)
    requires IsSquare(a, |f|) && InRange(ms, |f|) && Ordered(ms)
    requires forall m :: m in ms ==> a[m.row][m.col] == 0
    ensures Product(Ones(|f|), WriteMarks(a, |f|, ms), f) == Product(Ones(|f|), a, f) + BonusSum(f, ms)
    decreases |ms|
  {
    if ms != [] {
      var n := |f|;
      var init, last := ms[..|ms| - 1], ms[|ms| - 1];
      assert Ordered(init) by {
        forall i, j | 0 <= i < j < |init|
          ensures Before(init[i], init[j])
        {
          assert init[i] == ms[i] && init[j] == ms[j];
        }
      }
      var w := WriteMarks(a, n, init);
      assert w[last.row][last.col] == 0 by {
        WriteMarksEntries(a, n, init);
        assert last !in init by {
          forall i | 0 <= i < |init|
            ensures init[i] != last
          {
            assert Before(ms[i], ms[|ms| - 1]);
          }
        }
      }
      calc {
        Product(Ones(n), WriteMarks(a, n, ms), f);
      == { assert WriteMarks(a, n, ms) == Set(w, n, last.row, last.col, 1); }
        Product(Ones(n), Set(w, n, last.row, last.col, 1), f);
      == { ProductAfterSet(Ones(n), w, f, last.row, last.col, 1); }
        Product(Ones(n), w, f) + f[last.col];
      == { WriteMarksProduct(a, f, init); }
        Product(Ones(n), a, f) + BonusSum(f, init) + f[last.col];
      == { assert BonusSum(f, ms) == BonusSum(f, init) + ThrowAt(f, last.col); }
        Product(Ones(n), a, f) + BonusSum(f, ms);
      }
    }
  }

  /** J·A·F for the bonus matrix is the pins of every throw plus the pins of every marked throw. */
  lemma BonusMatrixProduct(f: seq<int>, ms: seq<Mark>)
    requires Ordered(ms)
    requires forall m :: m in ms ==> m.row < m.col < |f|
    ensures Product(Ones(|f|), BonusMatrix(|f|, ms), f) == Sum(f) + BonusSum(f, ms)
  {
    WriteMarksProduct(Identity(|f|), f, ms);
    ProductOnesIdentity(f);
  }

  // ---------------------------------------------------------------------
  // The conventional frame-by-frame total

  /** The score as the rules state it, frame by frame from cursor b with k frames
      behind: a strike scores 10 plus the next two throws, a spare 10 plus the
      next throw, an open frame its own pins; once nine frames are done, every
      remaining throw scores its pins. A throw that was never made counts 0. */
  function FrameByFrameScore(f: seq<int>, b: nat, k: nat): int
    decreases TotalFrames - k
  {
    if !(b < |f| && k < TotalFrames - 1) then
      SumFrom(f, b)
    else if f[b] == MaxPinsPerFrame then
      MaxPinsPerFrame + ThrowAt(f, b + 1) + ThrowAt(f, b + 2) + FrameByFrameScore(f, b + 1, k + 1)
    else if b + 1 < |f| && f[b] + f[b + 1] == MaxPinsPerFrame then
      MaxPinsPerFrame + ThrowAt(f, b + 2) + FrameByFrameScore(f, b + 2, k + 1)
    else
      f[b] + ThrowAt(f, b + 1) + FrameByFrameScore(f, b + 2, k + 1)
  }

  lemma {:induction false} SumFromIsSum(f: seq<int>, i: nat)
    requires i <= |f|
    ensures SumFrom(f, i) == Sum(f[i..])
    decreases |f| - i
  {
    if i < |f| {
      assert f[i..][1..] == f[i + 1..];
      SumFromIsSum(f, i + 1);
    }
  }

  /** The pins of the `count` throws after throw `row`, a missing throw counting 0. */
  function LookAhead(f: seq<int>, row: nat, count: nat): int {
    if count == 0 then 0 else LookAhead(f, row, count - 1) + ThrowAt(f, row + count)
  }

  /** Dropping the marks past the last throw loses no pins: the marks one call of
      addBonus writes add exactly the pins of the next `count` throws. */
  lemma {:induction false} BonusMarksSum(f: seq<int>, row: nat, count: nat)
    ensures BonusSum(f, BonusMarks(row, count, |f|)) == LookAhead(f, row, count)
  {
    if count > 0 {
      var tail := if row + count < |f| then [Mark(row, row + count)] else [];
      BonusMarksSum(f, row, count - 1);
      BonusSumConcat(f, BonusMarks(row, count - 1, |f|), tail);
      assert BonusSum(f, tail) == ThrowAt(f, row + count) by {
        if tail != [] {
          assert tail[..0] == [];
        }
      }
    }
  }

  /** The pins the bonus marks of one frame add: the next two throws after a
      strike, the next throw after a spare, nothing after an open frame. */
  lemma FrameBonusSum(f: seq<int>, b: nat)
    requires b < |f| && (f[b] != MaxPinsPerFrame ==> b + 1 < |f|)
    ensures BonusSum(f, FrameBonus(f, b)) ==
              if f[b] == MaxPinsPerFrame then ThrowAt(f, b + 1) + ThrowAt(f, b + 2)
              else if f[b] + f[b + 1] == MaxPinsPerFrame then ThrowAt(f, b + 2)
              else 0
  {
    if f[b] == MaxPinsPerFrame {
      BonusMarksSum(f, b, BonusFramesPerStrike);
      assert LookAhead(f, b, 1) == ThrowAt(f, b + 1);
    } else if f[b] + f[b + 1] == MaxPinsPerFrame {
      BonusMarksSum(f, b + 1, BonusFramesPerSpare);
    }
  }

  /** The pins from cursor b on plus the bonuses the walk adds equal the frame-by-frame total. */
  lemma {:induction false} WalkMatchesFrameByFrame(f: seq<int>, b: nat, k: nat)
    requires Walk(f, b, k).Success?
    ensures SumFrom(f, b) + BonusSum(f, Walk(f, b, k).value) == FrameByFrameScore(f, b, k)
    decreases TotalFrames - k
  {
    if b < |f| && k < TotalFrames - 1 {
      var b' := b + FrameLength(f, b);
      var own, rest := FrameBonus(f, b), Walk(f, b', k + 1).value;
      calc {
        SumFrom(f, b) + BonusSum(f, Walk(f, b, k).value);
      == { assert Walk(f, b, k).value == own + rest;
           BonusSumConcat(f, own, rest); }
        SumFrom(f, b) + BonusSum(f, own) + BonusSum(f, rest);
      == { WalkMatchesFrameByFrame(f, b', k + 1); }
        SumFrom(f, b) - SumFrom(f, b') + BonusSum(f, own) + FrameByFrameScore(f, b', k + 1);
      == { FrameBonusSum(f, b);
           if f[b] != MaxPinsPerFrame {
             assert SumFrom(f, b) == f[b] + f[b + 1] + SumFrom(f, b + 2);
           } }
        FrameByFrameScore(f, b, k);
      }
    }
  }

  // ---------------------------------------------------------------------
  // The engine

  /** For a walk that succeeds, J·A·F is the pins of every throw plus the pins of
      every marked throw, and equals the frame-by-frame total. */
  lemma BonusMatrixScore(f: seq<int>, marks: seq<Mark>)
    requires Walk(f, 0, 0) == Success(marks)
    ensures Product(Ones(|f|), BonusMatrix(|f|, marks), f) == Sum(f) + BonusSum(f, marks)
    ensures Sum(f) + BonusSum(f, marks) == FrameByFrameScore(f, 0, 0)
  {
    WalkMarksShape(f, 0, 0);
    WalkOrdered(f, 0, 0);
    BonusMatrixProduct(f, marks);
    WalkMatchesFrameByFrame(f, 0, 0);
    SumFromIsSum(f, 0);
  }

  /** The bonus matrix of a successful walk is unit upper-triangular with 0/1
      entries, and every off-diagonal 1 sits at most two columns right of the diagonal. */
  lemma BonusMatrixShaped(f: seq<int>, marks: seq<Mark>)
    requires Walk(f, 0, 0) == Success(marks)
    ensures IsSquare(BonusMatrix(|f|, marks), |f|) && IsBonusShaped(BonusMatrix(|f|, marks), |f|)
  {
    var n := |f|;
    WalkMarksShape(f, 0, 0);
    var a := BonusMatrix(n, marks);
    forall i, j | 0 <= i < n && 0 <= j < n
      ensures && (a[i][j] == 0 || a[i][j] == 1)
              && (i == j ==> a[i][j] == 1)
              && (j < i ==> a[i][j] == 0)
              && (a[i][j] == 1 && i < j ==> j <= i + BonusFramesPerStrike)
    {
      BonusMatrixEntry(f, marks, i, j);
    }
  }

  /** Off the diagonal, the bonus matrix of a successful walk holds a 1 exactly
      where the scoring rules call for a bonus in one of the first nine frames. */
  lemma BonusMatrixMarksFrames(f: seq<int>, marks: seq<Mark>)
    requires Walk(f, 0, 0) == Success(marks)
    ensures forall i, j :: 0 <= i < |f| && 0 <= j < |f| && i != j ==>
              (BonusMatrix(|f|, marks)[i][j] == 1 <==> exists s :: s in FrameStarts(f, 0, 0) && FrameMark(f, s, Mark(i, j)))
  {
    WalkMarksShape(f, 0, 0);
    forall i, j | 0 <= i < |f| && 0 <= j < |f| && i != j
      ensures BonusMatrix(|f|, marks)[i][j] == 1 <==> exists s :: s in FrameStarts(f, 0, 0) && FrameMark(f, s, Mark(i, j))
    {
      BonusMatrixEntry(f, marks, i, j);
      WalkMarksFromFrames(f, 0, 0);
    }
  }

  /** The rows of the tenth frame, and of every throw after it, hold nothing but
      their diagonal 1: the walker never marks them. */
  lemma TenthFrameRowsUnmarked(f: seq<int>, marks: seq<Mark>)
    requires Walk(f, 0, 0) == Success(marks)
    ensures forall i, j :: WalkEnd(f, 0, 0) <= i < |f| && 0 <= j < |f| && i != j ==> BonusMatrix(|f|, marks)[i][j] == 0
  {
    WalkMarksShape(f, 0, 0);
    forall i, j | WalkEnd(f, 0, 0) <= i < |f| && 0 <= j < |f| && i != j
      ensures BonusMatrix(|f|, marks)[i][j] == 0
    {
      BonusMatrixEntry(f, marks, i, j);
    }
  }

  /** One entry of the bonus matrix of a successful walk. */
  lemma BonusMatrixEntry(f: seq<int>, marks: seq<Mark>, i: nat, j: nat)
    requires Walk(f, 0, 0) == Success(marks)
    requires i < |f| && j < |f|
    ensures BonusMatrix(|f|, marks)[i][j] == if i == j || Mark(i, j) in marks then 1 else 0
    ensures Mark(i, j) in marks ==> i < j <= i + BonusFramesPerStrike && i < WalkEnd(f, 0, 0)
  {
    WalkMarksShape(f, 0, 0);
    WriteMarksEntries(Identity(|f|), |f|, marks);
  }

  // ---------------------------------------------------------------------
  // The engine as the class runs it: vectors, the marking loops, J·A·F

  /** initializeCalculation: A starts as the identity, F holds the throws, J is all ones. */
  method InitializeCalculation(scores: seq<int>) returns (a: Matrix, scoreVector: seq<int>, onesVector: seq<int>)
    ensures IsSquare(a, |scores|)
    ensures forall i, j :: 0 <= i < |scores| && 0 <= j < |scores| ==> a[i][j] == if i == j then 1 else 0
    ensures scoreVector == scores
    ensures |onesVector| == |scores| && forall i :: 0 <= i < |onesVector| ==> onesVector[i] == 1
  {
    var n := |scores|;
    a := Identity(n);
    scoreVector, onesVector := [], [];
    for ii := 0 to n
      invariant scoreVector == scores[..ii]
      invariant |onesVector| == ii && forall i :: 0 <= i < ii ==> onesVector[i] == 1
    {
      scoreVector := scoreVector + [scores[ii]];
      onesVector := onesVector + [1];
    }
  }

  /** addBonus: sets entry (ballIdx, ballIdx + bb) to 1 for bb = 1 .. numBonusFrames,
      skipping every column past the last throw; no other entry changes. */
  method AddBonus(a: Matrix, n: nat, ballIdx: nat, numBonusFrames: nat) returns (b: Matrix)
    requires IsSquare(a, n) && ballIdx < n
    ensures IsSquare(b, n)
    ensures forall i, j :: 0 <= i < n && 0 <= j < n ==>
              b[i][j] == if i == ballIdx && ballIdx < j <= ballIdx + numBonusFrames then 1 else a[i][j]
  {
    b := a;
    for bb := 1 to numBonusFrames + 1
      invariant IsSquare(b, n)
      invariant forall i, j :: 0 <= i < n && 0 <= j < n ==>
                  b[i][j] == if i == ballIdx && ballIdx < j < ballIdx + bb then 1 else a[i][j]
    {
      var bonusIdx := ballIdx + bb;
      if bonusIdx < n {
        b := Set(b, n, ballIdx, bonusIdx, 1);
      }
    }
  }

  /** `a` is the identity with a 1 at every mark of `done`, entry by entry. */
  predicate MarksWritten(a: Matrix, n: nat, done: seq<Mark>) {
    && IsSquare(a, n)
    && forall i, j {:trigger a[i][j]} :: 0 <= i < n && 0 <= j < n ==> a[i][j] == if i == j || Mark(i, j) in done then 1 else 0
  }

  /** A matrix that holds exactly the marks of `done` is their bonus matrix. */
  lemma MarksWrittenIsBonusMatrix(a: Matrix, n: nat, done: seq<Mark>)
    requires MarksWritten(a, n, done)
    ensures a == BonusMatrix(n, done)
  {
    WriteMarksEntries(Identity(n), n, done);
    SameEntries(a, BonusMatrix(n, done), n);
  }

  /** What addBonus writes into a matrix holding `done` holds `done` followed by BonusMarks. */
  lemma AddBonusWritesMarks(a: Matrix, b: Matrix, n: nat, done: seq<Mark>, row: nat, count: nat)
    requires MarksWritten(a, n, done) && IsSquare(b, n) && row < n
    requires forall i, j :: 0 <= i < n && 0 <= j < n ==>
               b[i][j] == if i == row && row < j <= row + count then 1 else a[i][j]
    ensures MarksWritten(b, n, done + BonusMarks(row, count, n))
  {
    BonusMarksShape(row, count, n);
  }

  /** The walk from a cursor, with the marks already written put in front. */
  function Prepend(done: seq<Mark>, r: Result<seq<Mark>>): Result<seq<Mark>> {
    if r.Success? then Success(done + r.value) else r
  }

  /** The score matrix the class builds: the bonus matrix of the walk, or the
      failed read of a missing second ball. */
  function ScoreMatrix(f: seq<int>): (r: Result<Matrix>)
    ensures r.Success? <==> SpareReadsInBounds(f)
    ensures r.Failure? ==> r.error == ReadPastEnd(|f|)
    ensures r.Success? ==> IsSquare(r.value, |f|)
  {
    WalkSucceedsIff(f, 0, 0);
    var marks :- Walk(f, 0, 0);
    Success(BonusMatrix(|f|, marks))
  }

  /** The final score J·A·F of the game, where A is the score matrix; a Failure
      when the spare test reads past the last throw. The score is the
      conventional frame-by-frame total. */
  function Score(f: seq<int>): (r: Result<int>)
    ensures r.Success? <==> SpareReadsInBounds(f)
    ensures r.Failure? ==> r.error == ReadPastEnd(|f|)
    ensures r.Success? ==> r.value == FrameByFrameScore(f, 0, 0)
  {
    var a :- ScoreMatrix(f);
    ScoreMatrixScore(f);
    Success(Product(Ones(|f|), a, f))
  }

  /** J·A·F with the score matrix A of a game that can be scored is its frame-by-frame total. */
  lemma ScoreMatrixScore(f: seq<int>)
    requires ScoreMatrix(f).Success?
    ensures Product(Ones(|f|), ScoreMatrix(f).value, f) == FrameByFrameScore(f, 0, 0)
  {
    WalkSucceedsIff(f, 0, 0);
    ScoreMatrixOfWalk(f, Walk(f, 0, 0));
    BonusMatrixScore(f, Walk(f, 0, 0).value);
  }

  /** ScoreMatrix in terms of the walk's outcome. */
  lemma ScoreMatrixOfWalk(f: seq<int>, r: Result<seq<Mark>>)
    requires Walk(f, 0, 0) == r
    ensures r.Failure? ==> ScoreMatrix(f) == Failure(ReadPastEnd(|f|))
    ensures r.Success? ==> ScoreMatrix(f) == Success(BonusMatrix(|f|, r.value))
  {
  }

  /** The walk from throw 0 with no marks written yet is the walk of the whole game. */
  lemma WalkFromStart(f: seq<int>)
    ensures Walk(f, 0, 0) == Prepend([], Walk(f, 0, 0))
  {
    if Walk(f, 0, 0).Success? {
      assert [] + Walk(f, 0, 0).value == Walk(f, 0, 0).value;
    }
  }

  /** A walk that reaches a non-strike frame on the last throw fails, and so does the score matrix. */
  lemma WalkFails(f: seq<int>, b: nat, k: nat, done: seq<Mark>)
    requires Walk(f, 0, 0) == Prepend(done, Walk(f, b, k))
    requires b < |f| && k < TotalFrames - 1 && f[b] != MaxPinsPerFrame && b + 1 >= |f|
    ensures ScoreMatrix(f) == Failure(ReadPastEnd(|f|))
  {
    ScoreMatrixOfWalk(f, Walk(f, 0, 0));
  }

  /** A walk that stops with the marks `done` written into `a` has `a` as its score matrix. */
  lemma WalkStops(f: seq<int>, a: Matrix, b: nat, k: nat, done: seq<Mark>)
    requires Walk(f, 0, 0) == Prepend(done, Walk(f, b, k))
    requires !(b < |f| && k < TotalFrames - 1)
    requires MarksWritten(a, |f|, done)
    ensures ScoreMatrix(f) == Success(a)
  {
    assert done + [] == done;
    MarksWrittenIsBonusMatrix(a, |f|, done);
    ScoreMatrixOfWalk(f, Success(done));
  }

  /** One step of the walker: the frame at cursor b adds its marks to those already written. */
  lemma WalkStep(f: seq<int>, b: nat, k: nat, done: seq<Mark>)
    requires b < |f| && k < TotalFrames - 1 && (f[b] != MaxPinsPerFrame ==> b + 1 < |f|)
    ensures Prepend(done, Walk(f, b, k)) == Prepend(done + FrameBonus(f, b), Walk(f, b + FrameLength(f, b), k + 1))
  {
    var rest := Walk(f, b + FrameLength(f, b), k + 1);
    if rest.Success? {
      assert Walk(f, b, k) == Success(FrameBonus(f, b) + rest.value);
      assert done + (FrameBonus(f, b) + rest.value) == done + FrameBonus(f, b) + rest.value;
    }
  }

  /** One pass of the body of populateScoreMatrix's loop, for the frame whose
      first ball is throw ballIdx: a strike gets the strike bonus on its row, a
      spare the spare bonus on the row of its second ball, an open frame nothing;
      the cursor moves to the next frame's first ball. */
  method MarkFrame(scores: seq<int>, a: Matrix, ghost done: seq<Mark>, ballIdx: nat, ghost k: nat)
    returns (b: Matrix, next: nat, ghost done': seq<Mark>)
    requires ballIdx < |scores| && (scores[ballIdx] != MaxPinsPerFrame ==> ballIdx + 1 < |scores|)
    requires MarksWritten(a, |scores|, done)
    ensures next == ballIdx + FrameLength(scores, ballIdx)
    ensures done' == done + FrameBonus(scores, ballIdx)
    ensures MarksWritten(b, |scores|, done')
    ensures k < TotalFrames - 1 ==> Prepend(done, Walk(scores, ballIdx, k)) == Prepend(done', Walk(scores, next, k + 1))
  {
    if k < TotalFrames - 1 {
      WalkStep(scores, ballIdx, k, done);
    }
    done' := done + FrameBonus(scores, ballIdx);
    var n := |scores|;
    var frameScore := scores[ballIdx];
    if frameScore == MaxPinsPerFrame {
      b := AddBonus(a, n, ballIdx, BonusFramesPerStrike);
      AddBonusWritesMarks(a, b, n, done, ballIdx, BonusFramesPerStrike);
      next := ballIdx + 1;
    } else if frameScore + scores[ballIdx + 1] == MaxPinsPerFrame {
      b := AddBonus(a, n, ballIdx + 1, BonusFramesPerSpare);
      AddBonusWritesMarks(a, b, n, done, ballIdx + 1, BonusFramesPerSpare);
      next := ballIdx + 2;
    } else {
      b := a;
      assert done + FrameBonus(scores, ballIdx) == done;
      next := ballIdx + 2;
    }
  }

  /** populateScoreMatrix, run on the identity matrix initializeCalculation
      leaves: the bonus matrix of the walk, or the failed read of a missing
      second ball. */
  method PopulateScoreMatrix(scores: seq<int>, scoreMatrix: Matrix) returns (r: Result<Matrix>)
    requires IsSquare(scoreMatrix, |scores|)
    requires forall i, j :: 0 <= i < |scores| && 0 <= j < |scores| ==> scoreMatrix[i][j] == if i == j then 1 else 0
    ensures r == ScoreMatrix(scores)
  {
    var n := |scores|;
    var a := scoreMatrix;
    ghost var done: seq<Mark> := [];
    var ballIdx: nat, frameCount: nat := 0, 0;
    WalkFromStart(scores);
    while ballIdx < n && frameCount < TotalFrames - 1
      invariant frameCount <= TotalFrames - 1
      invariant MarksWritten(a, n, done)
      invariant Walk(scores, 0, 0) == Prepend(done, Walk(scores, ballIdx, frameCount))
      decreases TotalFrames - frameCount
    {
      var frameScore := scores[ballIdx];
      if frameScore != MaxPinsPerFrame && ballIdx + 1 >= n {
        WalkFails(scores, ballIdx, frameCount, done);
        return Failure(ReadPastEnd(n));
      }
      a, ballIdx, done := MarkFrame(scores, a, done, ballIdx, frameCount);
      frameCount := frameCount + 1;
    }
    WalkStops(scores, a, ballIdx, frameCount, done);
    return Success(a);
  }

  /** getScore: J·A·F, associated as (J·A)·F. */
  method GetScore(onesVector: seq<int>, scoreMatrix: Matrix, scoreVector: seq<int>) returns (score: int)
    requires IsSquare(scoreMatrix, |scoreVector|) && |onesVector| == |scoreVector|
    ensures score == Product(onesVector, scoreMatrix, scoreVector)
  {
    var row := MultRow(onesVector, scoreMatrix, |scoreVector|);
    score := MultDot(row, scoreVector);
  }

  /** The constructor followed by getScore: the frame-by-frame total of the
      game, or the failed read of a missing second ball. */
  method ScoreGame(scores: seq<int>) returns (r: Result<int>)
    ensures r == Score(scores)
    ensures r.Success? <==> SpareReadsInBounds(scores)
    ensures r.Success? ==> r.value == FrameByFrameScore(scores, 0, 0)
  {
    var scoreMatrix, scoreVector, onesVector := InitializeCalculation(scores);
    var m := PopulateScoreMatrix(scoreVector, scoreMatrix);
    if m.Failure? {
      return Failure(m.error);
    }
    assert onesVector == Ones(|scores|);
    var score := GetScore(onesVector, m.value, scoreVector);
    return Success(score);
  }
}
