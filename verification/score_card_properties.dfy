/** Properties of the score engine stated frame by frame: how the first nine
    frames are laid out over the throws, which rows of the score matrix each
    kind of frame marks, and what the score is for games without bonuses. */
module ScoreCardProperties {
  import opened Matrices
  import opened ScoreCard

  // ---------------------------------------------------------------------
  // The layout of the frames

  /** Each frame in `starts` begins right after the one before it. */
  predicate StepsByFrame(f: seq<int>, starts: seq<nat>) {
    forall i :: 0 <= i < |starts| - 1 ==> starts[i] < |f| && starts[i + 1] == starts[i] + FrameLength(f, starts[i])
  }

  /** Frame i + 1 of the walk begins right after frame i. */
  lemma {:induction false} FrameStartsStepAt(f: seq<int>, b: nat, k: nat, i: nat)
    requires i + 1 < |FrameStarts(f, b, k)|
    ensures var starts := FrameStarts(f, b, k);
            starts[i] < |f| && starts[i + 1] == starts[i] + FrameLength(f, starts[i])
    decreases TotalFrames - k
  {
    var b' := b + FrameLength(f, b);
    var starts, rest := FrameStarts(f, b, k), FrameStarts(f, b', k + 1);
    assert starts == [b] + rest;
    if i > 0 {
      FrameStartsStepAt(f, b', k + 1, i - 1);
      assert starts[i] == rest[i - 1] && starts[i + 1] == rest[i];
    }
  }

  /** Consecutive frames are one throw apart after a strike and two otherwise. */
  lemma FrameStartsStep(f: seq<int>, b: nat, k: nat)
    ensures StepsByFrame(f, FrameStarts(f, b, k))
  {
    forall i | 0 <= i < |FrameStarts(f, b, k)| - 1 {
      FrameStartsStepAt(f, b, k, i);
    }
  }

  /** The walk over a whole game visits at most nine frames, the first starting
      at throw 0 and each next one right after the one before; it stops before
      the ninth frame only when it has run past the last throw, and it stops
      at the first ball of the tenth frame otherwise. */
  lemma FirstNineFrames(f: seq<int>)
    ensures |FrameStarts(f, 0, 0)| <= TotalFrames - 1
    ensures |f| > 0 <==> |FrameStarts(f, 0, 0)| > 0
    ensures |f| > 0 ==> FrameStarts(f, 0, 0)[0] == 0
    ensures StepsByFrame(f, FrameStarts(f, 0, 0))
    ensures |FrameStarts(f, 0, 0)| < TotalFrames - 1 ==> |f| <= WalkEnd(f, 0, 0)
    ensures var starts := FrameStarts(f, 0, 0);
            |starts| > 0 ==> WalkEnd(f, 0, 0) == starts[|starts| - 1] + FrameLength(f, starts[|starts| - 1])
  {
    FrameStartsStep(f, 0, 0);
    WalkEndAfterLastFrame(f, 0, 0);
    if |f| > 0 {
      assert FrameStarts(f, 0, 0) == [0] + FrameStarts(f, FrameLength(f, 0), 1);
    }
  }

  /** No frame starts on the second ball of a frame that is not a strike. */
  lemma {:induction false} SecondBallStartsNoFrame(f: seq<int>, b: nat, k: nat)
    ensures forall s :: s in FrameStarts(f, b, k) && s < |f| && f[s] != MaxPinsPerFrame ==> s + 1 !in FrameStarts(f, b, k)
    decreases TotalFrames - k
  {
    if b < |f| && k < TotalFrames - 1 {
      var b' := b + FrameLength(f, b);
      var starts, rest := FrameStarts(f, b, k), FrameStarts(f, b', k + 1);
      assert starts == [b] + rest;
      SecondBallStartsNoFrame(f, b', k + 1);
      forall s | s in starts && s < |f| && f[s] != MaxPinsPerFrame
        ensures s + 1 !in starts
      {
        if s == b {
          assert forall t :: t in rest ==> b + 2 <= t;
        } else {
          assert s in rest;
        }
      }
    }
  }

  /** Every second ball the spare test reads is there exactly when the first
      nine frames end at or before the end of the throws: only a frame that is
      not a strike and starts on the last throw runs past it. */
  lemma {:induction false} SecondBallsPresentIffWalkEnd(f: seq<int>, b: nat, k: nat)
    requires b <= |f|
    ensures SecondBallsPresent(f, FrameStarts(f, b, k)) <==> WalkEnd(f, b, k) <= |f|
    decreases TotalFrames - k
  {
    if b < |f| && k < TotalFrames - 1 {
      var b' := b + FrameLength(f, b);
      var rest := FrameStarts(f, b', k + 1);
      calc {
        SecondBallsPresent(f, FrameStarts(f, b, k));
      == { assert FrameStarts(f, b, k) == [b] + rest; }
        SecondBallsPresent(f, [b] + rest);
      == { SecondBallsPresentCons(f, b, rest); }
        b' <= |f| && SecondBallsPresent(f, rest);
      == { if b' <= |f| { SecondBallsPresentIffWalkEnd(f, b', k + 1); } }
        b' <= |f| && WalkEnd(f, b', k + 1) <= |f|;
      == { assert b' <= WalkEnd(f, b', k + 1); }
        WalkEnd(f, b', k + 1) <= |f|;
      }
    } else {
      assert FrameStarts(f, b, k) == [];
    }
  }

  /** A game can be scored exactly when its first nine frames end at or before
      the end of its throws. */
  lemma ScoreSucceedsIffWalkEnd(f: seq<int>)
    ensures Score(f).Success? <==> WalkEnd(f, 0, 0) <= |f|
  {
    SecondBallsPresentIffWalkEnd(f, 0, 0);
  }

  // ---------------------------------------------------------------------
  // Which rows each kind of frame marks

  /** The marks of a successful walk lie only where some frame among the first nine calls for them. */
  lemma MarkFromSomeFrame(f: seq<int>, marks: seq<Mark>, m: Mark) returns (s: nat)
    requires Walk(f, 0, 0) == Success(marks) && m in marks
    ensures s in FrameStarts(f, 0, 0) && FrameMark(f, s, m)
  {
    WalkMarksFromFrames(f, 0, 0);
    s :| s in FrameStarts(f, 0, 0) && FrameMark(f, s, m);
  }

  /** A strike among the first nine frames marks the next two throws on its own
      row, whatever they are; in particular a strike followed by a 0 is never
      read as a spare: the row of the next throw is marked only when that
      throw is itself a strike. */
  lemma StrikeFrameMarks(f: seq<int>, marks: seq<Mark>, s: nat)
    requires Walk(f, 0, 0) == Success(marks)
    requires s in FrameStarts(f, 0, 0) && s < |f| && f[s] == MaxPinsPerFrame
    ensures forall c :: s < c <= s + BonusFramesPerStrike && c < |f| ==> Mark(s, c) in marks
    ensures forall m :: m in marks && m.row == s ==> s < m.col <= s + BonusFramesPerStrike
    ensures forall m :: m in marks && m.row == s + 1 ==> ThrowAt(f, s + 1) == MaxPinsPerFrame
  {
    WalkMarksFromFrames(f, 0, 0);
    SecondBallStartsNoFrame(f, 0, 0);
    forall c | s < c <= s + BonusFramesPerStrike && c < |f|
      ensures Mark(s, c) in marks
    {
      assert FrameMark(f, s, Mark(s, c));
    }
    forall m | m in marks && (m.row == s || m.row == s + 1)
      ensures m.row == s ==> s < m.col <= s + BonusFramesPerStrike
      ensures m.row == s + 1 ==> ThrowAt(f, s + 1) == MaxPinsPerFrame
    {
      var t := MarkFromSomeFrame(f, marks, m);
    }
  }

  /** A spare among the first nine frames marks the throw after it on the row
      of its second ball, and nothing else on either of its rows. */
  lemma SpareFrameMarks(f: seq<int>, marks: seq<Mark>, s: nat)
    requires Walk(f, 0, 0) == Success(marks)
    requires s in FrameStarts(f, 0, 0) && s + 1 < |f|
    requires f[s] != MaxPinsPerFrame && f[s] + f[s + 1] == MaxPinsPerFrame
    ensures s + 2 < |f| ==> Mark(s + 1, s + 2) in marks
    ensures forall m :: m in marks ==> m.row != s
    ensures forall m :: m in marks && m.row == s + 1 ==> m.col == s + 1 + BonusFramesPerSpare
  {
    WalkMarksFromFrames(f, 0, 0);
    SecondBallStartsNoFrame(f, 0, 0);
    if s + 2 < |f| {
      assert FrameMark(f, s, Mark(s + 1, s + 2));
    }
    forall m | m in marks
      ensures m.row != s
      ensures m.row == s + 1 ==> m.col == s + 1 + BonusFramesPerSpare
    {
      var t := MarkFromSomeFrame(f, marks, m);
      if t != s && f[t] != MaxPinsPerFrame {
        assert t + 1 !in FrameStarts(f, 0, 0);
      }
    }
  }

  /** An open frame among the first nine marks neither of its rows. */
  lemma OpenFrameUnmarked(f: seq<int>, marks: seq<Mark>, s: nat)
    requires Walk(f, 0, 0) == Success(marks)
    requires s in FrameStarts(f, 0, 0) && s + 1 < |f|
    requires f[s] != MaxPinsPerFrame && f[s] + f[s + 1] != MaxPinsPerFrame
    ensures forall m :: m in marks ==> m.row != s && m.row != s + 1
  {
    SecondBallStartsNoFrame(f, 0, 0);
    forall m | m in marks
      ensures m.row != s && m.row != s + 1
    {
      var t := MarkFromSomeFrame(f, marks, m);
      if t != s && f[t] != MaxPinsPerFrame {
        assert t + 1 !in FrameStarts(f, 0, 0);
      }
    }
  }

  // ---------------------------------------------------------------------
  // Scores

  /** Every frame among the first nine is open: neither a strike nor a spare. */
  predicate AllFramesOpen(f: seq<int>) {
    forall s :: s in FrameStarts(f, 0, 0) ==> s < |f| && f[s] != MaxPinsPerFrame && f[s] + ThrowAt(f, s + 1) != MaxPinsPerFrame
  }

  /** A game whose first nine frames are all open scores the plain sum of its throws. */
  lemma OpenGameScoresPins(f: seq<int>)
    requires SpareReadsInBounds(f) && AllFramesOpen(f)
    ensures Score(f) == Success(Sum(f))
  {
    WalkSucceedsIff(f, 0, 0);
    var marks := Walk(f, 0, 0).value;
    WalkMarksFromFrames(f, 0, 0);
    if marks != [] {
      var t := MarkFromSomeFrame(f, marks, marks[0]);
      assert false;
    }
    BonusMatrixScore(f, marks);
  }

  /** The bonus marks add nothing negative when no throw is negative. */
  lemma {:induction false} BonusSumNonNegative(f: seq<int>, ms: seq<Mark>)
    requires forall i :: 0 <= i < |f| ==> 0 <= f[i]
    ensures 0 <= BonusSum(f, ms)
    decreases |ms|
  {
    if ms != [] {
      BonusSumNonNegative(f, ms[..|ms| - 1]);
    }
  }

  /** With no negative throw, a game scores at least the pins knocked down. */
  lemma ScoreAtLeastPins(f: seq<int>)
    requires forall i :: 0 <= i < |f| ==> 0 <= f[i]
    requires Score(f).Success?
    ensures Sum(f) <= Score(f).value
  {
    WalkSucceedsIff(f, 0, 0);
    var marks := Walk(f, 0, 0).value;
    BonusMatrixScore(f, marks);
    BonusSumNonNegative(f, marks);
  }

  /** The score fails exactly when a frame among the first nine that is not a
      strike starts on the last throw, and the failure names the missing throw. */
  lemma ScoreFailsIff(f: seq<int>)
    ensures Score(f).Failure? <==>
              exists s :: s in FrameStarts(f, 0, 0) && s == |f| - 1 && f[s] != MaxPinsPerFrame
    ensures Score(f).Failure? ==> Score(f).error == ReadPastEnd(|f|)
  {
  }

  // ---------------------------------------------------------------------
  // Changing one throw

  /** How many marks lie in column j: the bonus counts throw j earns. */
  function MarksInColumn(ms: seq<Mark>, j: nat): (c: nat)
    ensures c <= |ms|
    decreases |ms|
  {
    if ms == [] then 0
    else MarksInColumn(ms[..|ms| - 1], j) + (if ms[|ms| - 1].col == j then 1 else 0)
  }

  /** Replacing throw j by x changes the plain sum by x - f[j]. */
  lemma {:induction false} SumOneChanged(f: seq<int>, j: nat, x: int)
    requires j < |f|
    ensures Sum(f[j := x]) == Sum(f) + (x - f[j])
    decreases |f|
  {
    if j == 0 {
      assert f[j := x][1..] == f[1..];
    } else {
      assert f[j := x][1..] == f[1..][j - 1 := x];
      SumOneChanged(f[1..], j - 1, x);
    }
  }

  /** Replacing throw j by x changes the bonus pins by x - f[j] once per mark in
      column j. */
  lemma {:induction false} BonusSumOneChanged(f: seq<int>, j: nat, x: int, ms: seq<Mark>)
    requires j < |f|
    ensures BonusSum(f[j := x], ms) == BonusSum(f, ms) + MarksInColumn(ms, j) * (x - f[j])
    decreases |ms|
  {
    if ms != [] {
      var init, last := ms[..|ms| - 1], ms[|ms| - 1];
      BonusSumOneChanged(f, j, x, init);
      var c := MarksInColumn(init, j);
      if last.col == j {
        assert (c + 1) * (x - f[j]) == c * (x - f[j]) + (x - f[j]);
      }
    }
  }

  /** In row-major order two marks of the same column lie on increasing rows,
      so marks of column j on rows j - 2 .. hi - 1 number at most hi - j + 2. */
  lemma {:induction false} MarksInColumnBelow(ms: seq<Mark>, j: nat, hi: nat)
    requires Ordered(ms)
    requires forall m :: m in ms && m.col == j ==> j <= m.row + BonusFramesPerStrike && m.row < hi
    ensures MarksInColumn(ms, j) <= if hi + BonusFramesPerStrike <= j then 0 else hi + BonusFramesPerStrike - j
    decreases |ms|
  {
    if ms != [] {
      var init, last := ms[..|ms| - 1], ms[|ms| - 1];
      assert Ordered(init);
      if last.col == j {
        assert forall m :: m in init && m.col == j ==> m.row < last.row by {
          forall m | m in init && m.col == j
            ensures m.row < last.row
          {
            var i :| 0 <= i < |init| && init[i] == m;
            assert Before(ms[i], ms[|ms| - 1]);
          }
        }
        MarksInColumnBelow(init, j, last.row);
      } else {
        MarksInColumnBelow(init, j, hi);
      }
    }
  }

  /** While the walk writes the same marks, replacing throw j by x moves the
      score by x - f[j] for the throw itself and once more for each bonus count
      it earns, which is at most two: only the frames at rows j - 1 and j - 2
      can mark column j. */
  lemma OneThrowChangedScore(f: seq<int>, j: nat, x: int, marks: seq<Mark>)
    requires j < |f|
    requires Walk(f, 0, 0) == Success(marks) && Walk(f[j := x], 0, 0) == Success(marks)
    ensures Score(f).Success? && Score(f[j := x]).Success?
    ensures MarksInColumn(marks, j) <= BonusFramesPerStrike
    ensures Score(f[j := x]).value - Score(f).value == (1 + MarksInColumn(marks, j)) * (x - f[j])
    ensures var d, e := x - f[j], Score(f[j := x]).value - Score(f).value;
            e == d || e == 2 * d || e == 3 * d
  {
    ScoreOfMarks(f, marks);
    ScoreOfMarks(f[j := x], marks);
    MarksInColumnAtMostTwo(f, marks, j);
    PinsOneChanged(f, j, x, marks);
  }

  /** Replacing throw j by x moves the pins plus the bonus pins by x - f[j] once
      for the throw itself and once per mark in column j. */
  lemma PinsOneChanged(f: seq<int>, j: nat, x: int, ms: seq<Mark>)
    requires j < |f| && MarksInColumn(ms, j) <= BonusFramesPerStrike
    ensures var e := (Sum(f[j := x]) + BonusSum(f[j := x], ms)) - (Sum(f) + BonusSum(f, ms));
            && e == (1 + MarksInColumn(ms, j)) * (x - f[j])
            && (e == x - f[j] || e == 2 * (x - f[j]) || e == 3 * (x - f[j]))
  {
    var g := f[j := x];
    SumOneChanged(f, j, x);
    BonusSumOneChanged(f, j, x, ms);
    ScoreChangeArithmetic(Sum(f), BonusSum(f, ms), Sum(g), BonusSum(g, ms), MarksInColumn(ms, j), x - f[j]);
  }

  /** A game whose walk writes `marks` scores its pins plus the pins of the
      marked throws. */
  lemma ScoreOfMarks(f: seq<int>, marks: seq<Mark>)
    requires Walk(f, 0, 0) == Success(marks)
    ensures Score(f).Success? && Score(f).value == Sum(f) + BonusSum(f, marks)
  {
    WalkSucceedsIff(f, 0, 0);
    BonusMatrixScore(f, marks);
  }

  /** A throw earns at most two bonus counts: only the frames on the two rows
      before it can mark its column. */
  lemma MarksInColumnAtMostTwo(f: seq<int>, marks: seq<Mark>, j: nat)
    requires Walk(f, 0, 0) == Success(marks)
    ensures MarksInColumn(marks, j) <= BonusFramesPerStrike
  {
    WalkMarksShape(f, 0, 0);
    WalkOrdered(f, 0, 0);
    MarksInColumnBelow(marks, j, j);
  }

  /** The arithmetic behind PinsOneChanged: the sum moves by d and the
      bonus pins by c times d, with c at most 2. */
  lemma ScoreChangeArithmetic(sumF: int, bonusF: int, sumG: int, bonusG: int, c: nat, d: int)
    requires sumG == sumF + d
    requires bonusG == bonusF + c * d
    requires c <= 2
    ensures (sumG + bonusG) - (sumF + bonusF) == (1 + c) * d
    ensures var e := (sumG + bonusG) - (sumF + bonusF); e == d || e == 2 * d || e == 3 * d
  {
    if c == 0 {
      assert c * d == 0;
    } else if c == 1 {
      assert c * d == d;
    } else {
      assert c * d == 2 * d;
    }
  }

  function Abs(v: int): nat {
    if v < 0 then -v else v
  }

  /** Frame locality, while the marks stay the same: replacing throw j by x moves
      the score by at least the change itself and at most three times it. */
  lemma ScoreLocality(f: seq<int>, j: nat, x: int)
    requires j < |f|
    requires Walk(f, 0, 0).Success? && Walk(f[j := x], 0, 0) == Walk(f, 0, 0)
    ensures Score(f).Success? && Score(f[j := x]).Success?
    ensures Abs(x - f[j]) <= Abs(Score(f[j := x]).value - Score(f).value) <= 3 * Abs(x - f[j])
  {
    OneThrowChangedScore(f, j, x, Walk(f, 0, 0).value);
  }

  /** Monotonicity, while the marks stay the same: raising a throw never lowers
      the score, and lowering one never raises it. */
  lemma ScoreMonotone(f: seq<int>, j: nat, x: int)
    requires j < |f|
    requires Walk(f, 0, 0).Success? && Walk(f[j := x], 0, 0) == Walk(f, 0, 0)
    ensures Score(f).Success? && Score(f[j := x]).Success?
    ensures f[j] <= x <==> Score(f).value <= Score(f[j := x]).value
  {
    OneThrowChangedScore(f, j, x, Walk(f, 0, 0).value);
  }

  // ---------------------------------------------------------------------
  // Gutter games

  /** Every throw of f knocks down no pins. */
  predicate AllGutters(f: seq<int>) {
    forall i :: 0 <= i < |f| ==> f[i] == 0
  }

  /** n is even, counted down two at a time. */
  predicate Even(n: nat)
    decreases n
  {
    if n < 2 then n == 0 else Even(n - 2)
  }

  lemma {:induction false} EvenIsRemainderZero(n: nat)
    ensures Even(n) <==> n % 2 == 0
    decreases n
  {
    if n >= 2 {
      EvenIsRemainderZero(n - 2);
    }
  }

  /** In a game of gutter balls every frame has two throws, so the walk from an
      even distance to the end stays inside the game, and from an odd one it
      ends past the end unless it has already walked nine frames. */
  lemma {:induction false} GutterWalkEnd(f: seq<int>, b: nat, k: nat)
    requires AllGutters(f) && b <= |f| && k <= TotalFrames - 1
    ensures WalkEnd(f, b, k) <= |f| <==> b + 18 - 2 * k <= |f| || Even(|f| - b)
    decreases TotalFrames - k
  {
    if b < |f| && k < TotalFrames - 1 {
      GutterFrameStep(f, b, k);
      if b + 2 <= |f| {
        GutterWalkEnd(f, b + 2, k + 1);
      }
    }
  }

  /** A gutter frame takes two throws; a walk started past the end stays there. */
  lemma GutterFrameStep(f: seq<int>, b: nat, k: nat)
    requires AllGutters(f) && b < |f| && k < TotalFrames - 1
    ensures WalkEnd(f, b, k) == WalkEnd(f, b + 2, k + 1)
    ensures |f| < b + 2 ==> WalkEnd(f, b + 2, k + 1) == b + 2
  {
    assert f[b] == 0;
  }

  lemma {:induction false} SumOfGutters(f: seq<int>)
    requires AllGutters(f)
    ensures Sum(f) == 0
    decreases |f|
  {
    if f != [] {
      SumOfGutters(f[1..]);
    }
  }

  /** Gutter balls of any number score 0, whenever the game can be scored: with
      at least eighteen throws, or an even number of them. An odd number below
      eighteen leaves the last frame without its second ball. */
  lemma GutterGameScoresZero(f: seq<int>)
    requires AllGutters(f)
    ensures Score(f).Success? <==> 18 <= |f| || |f| % 2 == 0
    ensures Score(f).Success? ==> Score(f).value == 0
    ensures Score(f).Failure? ==> Score(f).error == ReadPastEnd(|f|)
  {
    ScoreSucceedsIffWalkEnd(f);
    GutterWalkEnd(f, 0, 0);
    EvenIsRemainderZero(|f|);
    if Score(f).Success? {
      assert AllFramesOpen(f);
      OpenGameScoresPins(f);
      SumOfGutters(f);
    }
  }

  // ---------------------------------------------------------------------
  // Legal games score between 0 and 300

  /** Every throw knocks down between 0 and 10 pins. */
  predicate ThrowsInRange(f: seq<int>) {
    forall i :: 0 <= i < |f| ==> 0 <= f[i] <= MaxPinsPerFrame
  }

  /** The throws from e on form a legal tenth frame: a strike followed by two
      bonus balls, a spare followed by one, or an open frame of two balls. */
  predicate LegalTenthFrame(f: seq<int>, e: nat) {
    && e + 2 <= |f|
    && if f[e] == MaxPinsPerFrame then
         |f| == e + 3 && (f[e + 1] == MaxPinsPerFrame || f[e + 1] + f[e + 2] <= MaxPinsPerFrame)
       else if f[e] + f[e + 1] == MaxPinsPerFrame then
         |f| == e + 3
       else
         |f| == e + 2 && f[e] + f[e + 1] < MaxPinsPerFrame
  }

  /** A legal completed game, as the class comment assumes its input to be:
      every throw in range, no frame among the first nine that is not a strike
      knocking down more than 10 pins, and a legal tenth frame where the walk
      of the first nine stops (so nine frames come before it). */
  predicate LegalGame(f: seq<int>) {
    && ThrowsInRange(f)
    && (forall s :: s in FrameStarts(f, 0, 0) && s + 1 < |f| && f[s] != MaxPinsPerFrame ==> f[s] + f[s + 1] <= MaxPinsPerFrame)
    && LegalTenthFrame(f, WalkEnd(f, 0, 0))
  }

  /** The throws from i on, each worth at most 10, add up to between 0 and 10
      per throw. */
  lemma {:induction false} SumFromBounds(f: seq<int>, i: nat)
    requires ThrowsInRange(f) && i <= |f|
    ensures 0 <= SumFrom(f, i) <= 10 * (|f| - i)
    decreases |f| - i
  {
    if i < |f| {
      SumFromBounds(f, i + 1);
    }
  }

  /** With every throw worth 0 to 10 pins, each frame walked from cursor b
      scores at most 30, and the throws after the walk count their pins. */
  lemma {:induction false} FrameByFrameBounds(f: seq<int>, b: nat, k: nat)
    requires ThrowsInRange(f) && k <= TotalFrames - 1
    ensures 0 <= FrameByFrameScore(f, b, k)
    ensures WalkEnd(f, b, k) <= |f| ==>
              FrameByFrameScore(f, b, k) <= 30 * (9 - k) + SumFrom(f, WalkEnd(f, b, k))
    decreases TotalFrames - k
  {
    if b < |f| && k < TotalFrames - 1 {
      var b' := b + FrameLength(f, b);
      var rest, e := FrameByFrameScore(f, b', k + 1), WalkEnd(f, b', k + 1);
      assert 0 <= rest && (e <= |f| ==> rest <= 30 * (8 - k) + SumFrom(f, e)) by {
        FrameByFrameBounds(f, b', k + 1);
      }
      assert rest <= FrameByFrameScore(f, b, k) <= rest + 30 by {
        FrameByFrameStepBounds(f, b, k);
      }
      assert WalkEnd(f, b, k) == e;
    } else if b <= |f| {
      SumFromBounds(f, b);
    }
  }

  /** One walked frame, with every throw worth 0 to 10 pins, adds between 0 and
      30 to the frame-by-frame total of the frames after it. */
  lemma FrameByFrameStepBounds(f: seq<int>, b: nat, k: nat)
    requires ThrowsInRange(f) && b < |f| && k < TotalFrames - 1
    ensures var rest := FrameByFrameScore(f, b + FrameLength(f, b), k + 1);
            rest <= FrameByFrameScore(f, b, k) <= rest + 30
  {
    assert 0 <= ThrowAt(f, b + 1) <= 10 && 0 <= ThrowAt(f, b + 2) <= 10;
  }

  /** Every legal game can be scored, and scores between 0 and 300. */
  lemma LegalGameScoreBounds(f: seq<int>)
    requires LegalGame(f)
    ensures Score(f).Success?
    ensures 0 <= Score(f).value <= 300
  {
    var e := WalkEnd(f, 0, 0);
    assert e + 3 >= |f| by { assert LegalTenthFrame(f, e); }
    ScoreSucceedsIffWalkEnd(f);
    SumFromBounds(f, e);
    FrameByFrameBounds(f, 0, 0);
  }
}
