/** The games of the JUnit data set, and the worked example of the class
    documentation, each stated as the score the model gives. Each game is a
    predicate fixing its throws one by one, which its lemmas require. */
module ScoreCardVectors {
  import opened Matrices
  import opened ScoreCard
  import opened ScoreCardProperties

  /** The worked example of the class documentation: the throws [10, 1, 1]. */
  predicate StrikeThenTwoSinglePinsThrows(f: seq<int>) {
    |f| == 3 && f[0] == 10 && f[1] == 1 && f[2] == 1
  }

  /** In the worked example the walk marks the two throws after the strike on
      the strike's row. */
  lemma StrikeThenTwoSinglePinsWalk(f: seq<int>)
    requires StrikeThenTwoSinglePinsThrows(f)
    ensures Walk(f, 0, 0) == Success([Mark(0, 1), Mark(0, 2)])
  {
    assert BonusMarks(0, 2, 3) == [Mark(0, 1), Mark(0, 2)] by {
      assert BonusMarks(0, 0, 3) == [];
      assert BonusMarks(0, 1, 3) == [Mark(0, 1)];
    }
    assert FrameBonus(f, 0) == [Mark(0, 1), Mark(0, 2)];
    assert Walk(f, 1, 1) == Success([]) by {
      assert FrameLength(f, 1) == 2;
      assert FrameBonus(f, 1) == [];
      assert Walk(f, 3, 2) == Success([]);
      assert FrameBonus(f, 1) + [] == [];
    }
    assert FrameLength(f, 0) == 1;
    assert FrameBonus(f, 0) + [] == [Mark(0, 1), Mark(0, 2)];
  }

  /** The worked example of the class documentation: the score matrix is
      [1 1 1; 0 1 0; 0 0 1] and J·A·F is 14. */
  lemma StrikeThenTwoSinglePins(f: seq<int>)
    requires StrikeThenTwoSinglePinsThrows(f)
    ensures ScoreMatrix(f) == Success([[1, 1, 1], [0, 1, 0], [0, 0, 1]])
    ensures Score(f) == Success(14)
  {
    var marks := [Mark(0, 1), Mark(0, 2)];
    StrikeThenTwoSinglePinsWalk(f);
    ScoreMatrixOfWalk(f, Walk(f, 0, 0));
    WriteMarksEntries(Identity(3), 3, marks);
    SameEntries(BonusMatrix(3, marks), [[1, 1, 1], [0, 1, 0], [0, 0, 1]], 3);
    assert FrameByFrameScore(f, 0, 0) == 14 by {
      assert SumFrom(f, 2) == 1;
      assert FrameByFrameScore(f, 3, 2) == 0;
      assert FrameByFrameScore(f, 1, 1) == 2;
    }
  }

  /** A game of throws [10, 3] stops right after the first ball of a frame that
      is not a strike: the spare test reads the missing second ball, and no
      score results. */
  lemma MissingSecondBall(f: seq<int>)
    requires |f| == 2
    requires f[0] == 10 && f[1] == 3
    ensures Score(f) == Failure(ReadPastEnd(2))
  {
  }

  /** The throws [7, 3, 9, 0]: a spare, then an open frame. */
  predicate SpareThenNineThrows(f: seq<int>) {
    |f| == 4 && f[0] == 7 && f[1] == 3 && f[2] == 9 && f[3] == 0
  }

  /** Frame locality holds only while the marks stay the same. Lowering throw 1
      of [7, 3, 9, 0] from 3 to 0 turns the spare into an open frame, drops its
      mark, and lowers the score from 28 to 16: by 12, more than three times 3. */
  lemma SpareTurnedOpenChangesMarks(f: seq<int>)
    requires SpareThenNineThrows(f)
    ensures Walk(f[1 := 0], 0, 0) != Walk(f, 0, 0)
    ensures Score(f) == Success(28) && Score(f[1 := 0]) == Success(16)
  {
    SpareThenNineScores(f);
    SpareThenNineMarks(f);
  }

  /** [7, 3, 9, 0] scores 28, and [7, 0, 9, 0] scores 16. */
  lemma SpareThenNineScores(f: seq<int>)
    requires SpareThenNineThrows(f)
    ensures Score(f) == Success(28) && Score(f[1 := 0]) == Success(16)
  {
    var g := f[1 := 0];
    assert WalkEnd(f, 0, 0) == 4 by {
      assert WalkEnd(f, 2, 1) == 4;
    }
    assert WalkEnd(g, 0, 0) == 4 by {
      assert WalkEnd(g, 2, 1) == 4;
    }
    ScoreSucceedsIffWalkEnd(f);
    ScoreSucceedsIffWalkEnd(g);
    assert FrameByFrameScore(f, 2, 1) == 9 && FrameByFrameScore(g, 2, 1) == 9 by {
      assert FrameByFrameScore(f, 4, 2) == 0 && FrameByFrameScore(g, 4, 2) == 0;
    }
  }

  /** The spare of [7, 3, 9, 0] marks throw 2 on row 1, and the open frame of
      [7, 0, 9, 0] marks nothing there. */
  lemma SpareThenNineMarks(f: seq<int>)
    requires SpareThenNineThrows(f)
    ensures Walk(f, 0, 0).Success? && Mark(1, 2) in Walk(f, 0, 0).value
    ensures Walk(f[1 := 0], 0, 0).Failure? || Mark(1, 2) !in Walk(f[1 := 0], 0, 0).value
  {
    var g := f[1 := 0];
    assert FrameBonus(f, 0) == [Mark(1, 2)];
    assert Walk(f, 2, 1).Success? by {
      assert Walk(f, 4, 2) == Success([]);
    }
    assert FrameBonus(g, 0) == [];
    if Walk(g, 0, 0).Success? {
      WalkMarksShape(g, 2, 1);
    }
  }

  /** JUnit case "all gutter balls" (TestScoreCard.java:70-71): the throws
      [0, 0, 0, 0, 0, 0, 0, 0, 0, 0, 0, 0, 0, 0, 0, 0, 0, 0, 0, 0]. */
  predicate AllGutterBallsThrows(f: seq<int>) {
    && |f| == 20
    && f[0] == 0 && f[1] == 0 && f[2] == 0 && f[3] == 0 && f[4] == 0 && f[5] == 0 && f[6] == 0 && f[7] == 0 && f[8] == 0 && f[9] == 0
    && f[10] == 0 && f[11] == 0 && f[12] == 0 && f[13] == 0 && f[14] == 0 && f[15] == 0 && f[16] == 0 && f[17] == 0 && f[18] == 0 && f[19] == 0
  }

  /** In "all gutter balls" the first nine frames end at throw 18, inside the game. */
  lemma AllGutterBallsWalkEnd(f: seq<int>)
    requires AllGutterBallsThrows(f)
    ensures WalkEnd(f, 0, 0) == 18
  {
  }

  /** The frame-by-frame total of "all gutter balls" is 0. */
  lemma AllGutterBallsFrameTotal(f: seq<int>)
    requires AllGutterBallsThrows(f)
    ensures FrameByFrameScore(f, 0, 0) == 0
  {
    assert SumFrom(f, 19) == 0;
    assert SumFrom(f, 18) == 0;
    assert FrameByFrameScore(f, 18, 9) == 0;
    assert FrameByFrameScore(f, 16, 8) == 0;
    assert FrameByFrameScore(f, 14, 7) == 0;
    assert FrameByFrameScore(f, 12, 6) == 0;
    assert FrameByFrameScore(f, 10, 5) == 0;
    assert FrameByFrameScore(f, 8, 4) == 0;
    assert FrameByFrameScore(f, 6, 3) == 0;
    assert FrameByFrameScore(f, 4, 2) == 0;
    assert FrameByFrameScore(f, 2, 1) == 0;
  }

  /** JUnit case "all gutter balls": the game scores 0. */
  lemma AllGutterBalls(f: seq<int>)
    requires AllGutterBallsThrows(f)
    ensures Score(f) == Success(0)
  {
    AllGutterBallsWalkEnd(f);
    AllGutterBallsFrameTotal(f);
    ScoreSucceedsIffWalkEnd(f);
  }

  /** JUnit case "perfect game" (TestScoreCard.java:72-74): the throws
      [10, 10, 10, 10, 10, 10, 10, 10, 10, 10, 10, 10]. */
  predicate PerfectGameThrows(f: seq<int>) {
    && |f| == 12
    && f[0] == 10 && f[1] == 10 && f[2] == 10 && f[3] == 10 && f[4] == 10 && f[5] == 10 && f[6] == 10 && f[7] == 10 && f[8] == 10 && f[9] == 10
    && f[10] == 10 && f[11] == 10
  }

  /** In "perfect game" the first nine frames end at throw 9, inside the game. */
  lemma PerfectGameWalkEnd(f: seq<int>)
    requires PerfectGameThrows(f)
    ensures WalkEnd(f, 0, 0) == 9
  {
  }

  /** The frame-by-frame total of "perfect game" is 300. */
  lemma PerfectGameFrameTotal(f: seq<int>)
    requires PerfectGameThrows(f)
    ensures FrameByFrameScore(f, 0, 0) == 300
  {
    assert SumFrom(f, 11) == 10;
    assert SumFrom(f, 10) == 20;
    assert SumFrom(f, 9) == 30;
    assert FrameByFrameScore(f, 9, 9) == 30;
    assert FrameByFrameScore(f, 8, 8) == 60;
    assert FrameByFrameScore(f, 7, 7) == 90;
    assert FrameByFrameScore(f, 6, 6) == 120;
    assert FrameByFrameScore(f, 5, 5) == 150;
    assert FrameByFrameScore(f, 4, 4) == 180;
    assert FrameByFrameScore(f, 3, 3) == 210;
    assert FrameByFrameScore(f, 2, 2) == 240;
    assert FrameByFrameScore(f, 1, 1) == 270;
  }

  /** JUnit case "perfect game": the game scores 300. */
  lemma PerfectGame(f: seq<int>)
    requires PerfectGameThrows(f)
    ensures Score(f) == Success(300)
  {
    PerfectGameWalkEnd(f);
    PerfectGameFrameTotal(f);
    ScoreSucceedsIffWalkEnd(f);
  }

  /** Twelve strikes form a legal game, so the bound of 300 on legal games is
      reached. */
  lemma PerfectGameIsLegal(f: seq<int>)
    requires PerfectGameThrows(f)
    ensures LegalGame(f)
    ensures Score(f) == Success(300)
  {
    assert forall i :: 0 <= i < |f| ==> f[i] == MaxPinsPerFrame;
    assert LegalTenthFrame(f, WalkEnd(f, 0, 0)) by {
      PerfectGameWalkEnd(f);
    }
    PerfectGame(f);
  }

  /** JUnit case "no strikes or spares" (TestScoreCard.java:75-77): the throws
      [4, 5, 5, 4, 3, 6, 2, 7, 0, 9, 6, 3, 8, 1, 1, 8, 9, 0, 7, 2]. */
  predicate NoStrikesOrSparesThrows(f: seq<int>) {
    && |f| == 20
    && f[0] == 4 && f[1] == 5 && f[2] == 5 && f[3] == 4 && f[4] == 3 && f[5] == 6 && f[6] == 2 && f[7] == 7 && f[8] == 0 && f[9] == 9
    && f[10] == 6 && f[11] == 3 && f[12] == 8 && f[13] == 1 && f[14] == 1 && f[15] == 8 && f[16] == 9 && f[17] == 0 && f[18] == 7 && f[19] == 2
  }

  /** In "no strikes or spares" the first nine frames end at throw 18, inside the game. */
  lemma NoStrikesOrSparesWalkEnd(f: seq<int>)
    requires NoStrikesOrSparesThrows(f)
    ensures WalkEnd(f, 0, 0) == 18
  {
  }

  /** The frame-by-frame total of "no strikes or spares" is 90. */
  lemma NoStrikesOrSparesFrameTotal(f: seq<int>)
    requires NoStrikesOrSparesThrows(f)
    ensures FrameByFrameScore(f, 0, 0) == 90
  {
    assert SumFrom(f, 19) == 2;
    assert SumFrom(f, 18) == 9;
    assert FrameByFrameScore(f, 18, 9) == 9;
    assert FrameByFrameScore(f, 16, 8) == 18;
    assert FrameByFrameScore(f, 14, 7) == 27;
    assert FrameByFrameScore(f, 12, 6) == 36;
    assert FrameByFrameScore(f, 10, 5) == 45;
    assert FrameByFrameScore(f, 8, 4) == 54;
    assert FrameByFrameScore(f, 6, 3) == 63;
    assert FrameByFrameScore(f, 4, 2) == 72;
    assert FrameByFrameScore(f, 2, 1) == 81;
  }

  /** JUnit case "no strikes or spares": the game scores 90. */
  lemma NoStrikesOrSpares(f: seq<int>)
    requires NoStrikesOrSparesThrows(f)
    ensures Score(f) == Success(90)
  {
    NoStrikesOrSparesWalkEnd(f);
    NoStrikesOrSparesFrameTotal(f);
    ScoreSucceedsIffWalkEnd(f);
  }

  /** JUnit case "strike on 9th frame" (TestScoreCard.java:78-80): the throws
      [4, 5, 5, 4, 3, 6, 2, 7, 0, 9, 6, 3, 8, 1, 1, 8, 10, 7, 2]. */
  predicate StrikeOnNinthFrameThrows(f: seq<int>) {
    && |f| == 19
    && f[0] == 4 && f[1] == 5 && f[2] == 5 && f[3] == 4 && f[4] == 3 && f[5] == 6 && f[6] == 2 && f[7] == 7 && f[8] == 0 && f[9] == 9
    && f[10] == 6 && f[11] == 3 && f[12] == 8 && f[13] == 1 && f[14] == 1 && f[15] == 8 && f[16] == 10 && f[17] == 7 && f[18] == 2
  }

  /** In "strike on 9th frame" the first nine frames end at throw 17, inside the game. */
  lemma StrikeOnNinthFrameWalkEnd(f: seq<int>)
    requires StrikeOnNinthFrameThrows(f)
    ensures WalkEnd(f, 0, 0) == 17
  {
  }

  /** The frame-by-frame total of "strike on 9th frame" is 100. */
  lemma StrikeOnNinthFrameFrameTotal(f: seq<int>)
    requires StrikeOnNinthFrameThrows(f)
    ensures FrameByFrameScore(f, 0, 0) == 100
  {
    assert SumFrom(f, 18) == 2;
    assert SumFrom(f, 17) == 9;
    assert FrameByFrameScore(f, 17, 9) == 9;
    assert FrameByFrameScore(f, 16, 8) == 28;
    assert FrameByFrameScore(f, 14, 7) == 37;
    assert FrameByFrameScore(f, 12, 6) == 46;
    assert FrameByFrameScore(f, 10, 5) == 55;
    assert FrameByFrameScore(f, 8, 4) == 64;
    assert FrameByFrameScore(f, 6, 3) == 73;
    assert FrameByFrameScore(f, 4, 2) == 82;
    assert FrameByFrameScore(f, 2, 1) == 91;
  }

  /** JUnit case "strike on 9th frame": the game scores 100. */
  lemma StrikeOnNinthFrame(f: seq<int>)
    requires StrikeOnNinthFrameThrows(f)
    ensures Score(f) == Success(100)
  {
    StrikeOnNinthFrameWalkEnd(f);
    StrikeOnNinthFrameFrameTotal(f);
    ScoreSucceedsIffWalkEnd(f);
  }

  /** JUnit case "strike on 9th frame" (TestScoreCard.java:81-82): the throws
      [4, 5, 5, 4, 3, 6, 2, 7, 0, 9, 6, 3, 8, 1, 1, 8, 10, 0, 0, 0]. */
  predicate StrikeOnNinthFrameThenGuttersThrows(f: seq<int>) {
    && |f| == 20
    && f[0] == 4 && f[1] == 5 && f[2] == 5 && f[3] == 4 && f[4] == 3 && f[5] == 6 && f[6] == 2 && f[7] == 7 && f[8] == 0 && f[9] == 9
    && f[10] == 6 && f[11] == 3 && f[12] == 8 && f[13] == 1 && f[14] == 1 && f[15] == 8 && f[16] == 10 && f[17] == 0 && f[18] == 0 && f[19] == 0
  }

  /** In "strike on 9th frame" the first nine frames end at throw 17, inside the game. */
  lemma StrikeOnNinthFrameThenGuttersWalkEnd(f: seq<int>)
    requires StrikeOnNinthFrameThenGuttersThrows(f)
    ensures WalkEnd(f, 0, 0) == 17
  {
  }

  /** The frame-by-frame total of "strike on 9th frame" is 82. */
  lemma StrikeOnNinthFrameThenGuttersFrameTotal(f: seq<int>)
    requires StrikeOnNinthFrameThenGuttersThrows(f)
    ensures FrameByFrameScore(f, 0, 0) == 82
  {
    assert SumFrom(f, 19) == 0;
    assert SumFrom(f, 18) == 0;
    assert SumFrom(f, 17) == 0;
    assert FrameByFrameScore(f, 17, 9) == 0;
    assert FrameByFrameScore(f, 16, 8) == 10;
    assert FrameByFrameScore(f, 14, 7) == 19;
    assert FrameByFrameScore(f, 12, 6) == 28;
    assert FrameByFrameScore(f, 10, 5) == 37;
    assert FrameByFrameScore(f, 8, 4) == 46;
    assert FrameByFrameScore(f, 6, 3) == 55;
    assert FrameByFrameScore(f, 4, 2) == 64;
    assert FrameByFrameScore(f, 2, 1) == 73;
  }

  /** JUnit case "strike on 9th frame": the game scores 82. */
  lemma StrikeOnNinthFrameThenGutters(f: seq<int>)
    requires StrikeOnNinthFrameThenGuttersThrows(f)
    ensures Score(f) == Success(82)
  {
    StrikeOnNinthFrameThenGuttersWalkEnd(f);
    StrikeOnNinthFrameThenGuttersFrameTotal(f);
    ScoreSucceedsIffWalkEnd(f);
  }

  /** JUnit case "spare on 9th frame" (TestScoreCard.java:83-85): the throws
      [0, 0, 0, 0, 0, 0, 0, 0, 0, 0, 0, 0, 0, 0, 0, 0, 1, 9, 2, 0]. */
  predicate SpareOnNinthFrameThrows(f: seq<int>) {
    && |f| == 20
    && f[0] == 0 && f[1] == 0 && f[2] == 0 && f[3] == 0 && f[4] == 0 && f[5] == 0 && f[6] == 0 && f[7] == 0 && f[8] == 0 && f[9] == 0
    && f[10] == 0 && f[11] == 0 && f[12] == 0 && f[13] == 0 && f[14] == 0 && f[15] == 0 && f[16] == 1 && f[17] == 9 && f[18] == 2 && f[19] == 0
  }

  /** In "spare on 9th frame" the first nine frames end at throw 18, inside the game. */
  lemma SpareOnNinthFrameWalkEnd(f: seq<int>)
    requires SpareOnNinthFrameThrows(f)
    ensures WalkEnd(f, 0, 0) == 18
  {
  }

  /** The frame-by-frame total of "spare on 9th frame" is 14. */
  lemma SpareOnNinthFrameFrameTotal(f: seq<int>)
    requires SpareOnNinthFrameThrows(f)
    ensures FrameByFrameScore(f, 0, 0) == 14
  {
    assert SumFrom(f, 19) == 0;
    assert SumFrom(f, 18) == 2;
    assert FrameByFrameScore(f, 18, 9) == 2;
    assert FrameByFrameScore(f, 16, 8) == 14;
    assert FrameByFrameScore(f, 14, 7) == 14;
    assert FrameByFrameScore(f, 12, 6) == 14;
    assert FrameByFrameScore(f, 10, 5) == 14;
    assert FrameByFrameScore(f, 8, 4) == 14;
    assert FrameByFrameScore(f, 6, 3) == 14;
    assert FrameByFrameScore(f, 4, 2) == 14;
    assert FrameByFrameScore(f, 2, 1) == 14;
  }

  /** JUnit case "spare on 9th frame": the game scores 14. */
  lemma SpareOnNinthFrame(f: seq<int>)
    requires SpareOnNinthFrameThrows(f)
    ensures Score(f) == Success(14)
  {
    SpareOnNinthFrameWalkEnd(f);
    SpareOnNinthFrameFrameTotal(f);
    ScoreSucceedsIffWalkEnd(f);
  }

  /** JUnit case "spare on 9th frame" (TestScoreCard.java:86-87): the throws
      [0, 0, 0, 0, 0, 0, 0, 0, 0, 0, 0, 0, 0, 0, 0, 0, 1, 9, 2, 1]. */
  predicate SpareOnNinthFrameThenOneThrows(f: seq<int>) {
    && |f| == 20
    && f[0] == 0 && f[1] == 0 && f[2] == 0 && f[3] == 0 && f[4] == 0 && f[5] == 0 && f[6] == 0 && f[7] == 0 && f[8] == 0 && f[9] == 0
    && f[10] == 0 && f[11] == 0 && f[12] == 0 && f[13] == 0 && f[14] == 0 && f[15] == 0 && f[16] == 1 && f[17] == 9 && f[18] == 2 && f[19] == 1
  }

  /** In "spare on 9th frame" the first nine frames end at throw 18, inside the game. */
  lemma SpareOnNinthFrameThenOneWalkEnd(f: seq<int>)
    requires SpareOnNinthFrameThenOneThrows(f)
    ensures WalkEnd(f, 0, 0) == 18
  {
  }

  /** The frame-by-frame total of "spare on 9th frame" is 15. */
  lemma SpareOnNinthFrameThenOneFrameTotal(f: seq<int>)
    requires SpareOnNinthFrameThenOneThrows(f)
    ensures FrameByFrameScore(f, 0, 0) == 15
  {
    assert SumFrom(f, 19) == 1;
    assert SumFrom(f, 18) == 3;
    assert FrameByFrameScore(f, 18, 9) == 3;
    assert FrameByFrameScore(f, 16, 8) == 15;
    assert FrameByFrameScore(f, 14, 7) == 15;
    assert FrameByFrameScore(f, 12, 6) == 15;
    assert FrameByFrameScore(f, 10, 5) == 15;
    assert FrameByFrameScore(f, 8, 4) == 15;
    assert FrameByFrameScore(f, 6, 3) == 15;
    assert FrameByFrameScore(f, 4, 2) == 15;
    assert FrameByFrameScore(f, 2, 1) == 15;
  }

  /** JUnit case "spare on 9th frame": the game scores 15. */
  lemma SpareOnNinthFrameThenOne(f: seq<int>)
    requires SpareOnNinthFrameThenOneThrows(f)
    ensures Score(f) == Success(15)
  {
    SpareOnNinthFrameThenOneWalkEnd(f);
    SpareOnNinthFrameThenOneFrameTotal(f);
    ScoreSucceedsIffWalkEnd(f);
  }

  /** JUnit case "strike in middle frame" (TestScoreCard.java:88-90): the throws
      [0, 0, 0, 0, 10, 0, 0, 0, 0, 0, 0, 0, 0, 0, 0, 0, 0, 0, 0]. */
  predicate StrikeInMiddleFrameThrows(f: seq<int>) {
    && |f| == 19
    && f[0] == 0 && f[1] == 0 && f[2] == 0 && f[3] == 0 && f[4] == 10 && f[5] == 0 && f[6] == 0 && f[7] == 0 && f[8] == 0 && f[9] == 0
    && f[10] == 0 && f[11] == 0 && f[12] == 0 && f[13] == 0 && f[14] == 0 && f[15] == 0 && f[16] == 0 && f[17] == 0 && f[18] == 0
  }

  /** In "strike in middle frame" the first nine frames end at throw 17, inside the game. */
  lemma StrikeInMiddleFrameWalkEnd(f: seq<int>)
    requires StrikeInMiddleFrameThrows(f)
    ensures WalkEnd(f, 0, 0) == 17
  {
  }

  /** The frame-by-frame total of "strike in middle frame" is 10. */
  lemma StrikeInMiddleFrameFrameTotal(f: seq<int>)
    requires StrikeInMiddleFrameThrows(f)
    ensures FrameByFrameScore(f, 0, 0) == 10
  {
    assert SumFrom(f, 18) == 0;
    assert SumFrom(f, 17) == 0;
    assert FrameByFrameScore(f, 17, 9) == 0;
    assert FrameByFrameScore(f, 15, 8) == 0;
    assert FrameByFrameScore(f, 13, 7) == 0;
    assert FrameByFrameScore(f, 11, 6) == 0;
    assert FrameByFrameScore(f, 9, 5) == 0;
    assert FrameByFrameScore(f, 7, 4) == 0;
    assert FrameByFrameScore(f, 5, 3) == 0;
    assert FrameByFrameScore(f, 4, 2) == 10;
    assert FrameByFrameScore(f, 2, 1) == 10;
  }

  /** JUnit case "strike in middle frame": the game scores 10. */
  lemma StrikeInMiddleFrame(f: seq<int>)
    requires StrikeInMiddleFrameThrows(f)
    ensures Score(f) == Success(10)
  {
    StrikeInMiddleFrameWalkEnd(f);
    StrikeInMiddleFrameFrameTotal(f);
    ScoreSucceedsIffWalkEnd(f);
  }

  /** JUnit case "strike in middle frame" (TestScoreCard.java:91-92): the throws
      [0, 0, 0, 0, 10, 1, 0, 0, 0, 0, 0, 0, 0, 0, 0, 0, 0, 0, 0]. */
  predicate StrikeInMiddleFrameThenOneThrows(f: seq<int>) {
    && |f| == 19
    && f[0] == 0 && f[1] == 0 && f[2] == 0 && f[3] == 0 && f[4] == 10 && f[5] == 1 && f[6] == 0 && f[7] == 0 && f[8] == 0 && f[9] == 0
    && f[10] == 0 && f[11] == 0 && f[12] == 0 && f[13] == 0 && f[14] == 0 && f[15] == 0 && f[16] == 0 && f[17] == 0 && f[18] == 0
  }

  /** In "strike in middle frame" the first nine frames end at throw 17, inside the game. */
  lemma StrikeInMiddleFrameThenOneWalkEnd(f: seq<int>)
    requires StrikeInMiddleFrameThenOneThrows(f)
    ensures WalkEnd(f, 0, 0) == 17
  {
  }

  /** The frame-by-frame total of "strike in middle frame" is 12. */
  lemma StrikeInMiddleFrameThenOneFrameTotal(f: seq<int>)
    requires StrikeInMiddleFrameThenOneThrows(f)
    ensures FrameByFrameScore(f, 0, 0) == 12
  {
    assert SumFrom(f, 18) == 0;
    assert SumFrom(f, 17) == 0;
    assert FrameByFrameScore(f, 17, 9) == 0;
    assert FrameByFrameScore(f, 15, 8) == 0;
    assert FrameByFrameScore(f, 13, 7) == 0;
    assert FrameByFrameScore(f, 11, 6) == 0;
    assert FrameByFrameScore(f, 9, 5) == 0;
    assert FrameByFrameScore(f, 7, 4) == 0;
    assert FrameByFrameScore(f, 5, 3) == 1;
    assert FrameByFrameScore(f, 4, 2) == 12;
    assert FrameByFrameScore(f, 2, 1) == 12;
  }

  /** JUnit case "strike in middle frame": the game scores 12. */
  lemma StrikeInMiddleFrameThenOne(f: seq<int>)
    requires StrikeInMiddleFrameThenOneThrows(f)
    ensures Score(f) == Success(12)
  {
    StrikeInMiddleFrameThenOneWalkEnd(f);
    StrikeInMiddleFrameThenOneFrameTotal(f);
    ScoreSucceedsIffWalkEnd(f);
  }

  /** JUnit case "strike in middle frame" (TestScoreCard.java:93-94): the throws
      [0, 0, 0, 0, 10, 1, 1, 0, 0, 0, 0, 0, 0, 0, 0, 0, 0, 0, 0]. */
  predicate StrikeInMiddleFrameThenTwoOnesThrows(f: seq<int>) {
    && |f| == 19
    && f[0] == 0 && f[1] == 0 && f[2] == 0 && f[3] == 0 && f[4] == 10 && f[5] == 1 && f[6] == 1 && f[7] == 0 && f[8] == 0 && f[9] == 0
    && f[10] == 0 && f[11] == 0 && f[12] == 0 && f[13] == 0 && f[14] == 0 && f[15] == 0 && f[16] == 0 && f[17] == 0 && f[18] == 0
  }

  /** In "strike in middle frame" the first nine frames end at throw 17, inside the game. */
  lemma StrikeInMiddleFrameThenTwoOnesWalkEnd(f: seq<int>)
    requires StrikeInMiddleFrameThenTwoOnesThrows(f)
    ensures WalkEnd(f, 0, 0) == 17
  {
  }

  /** The frame-by-frame total of "strike in middle frame" is 14. */
  lemma StrikeInMiddleFrameThenTwoOnesFrameTotal(f: seq<int>)
    requires StrikeInMiddleFrameThenTwoOnesThrows(f)
    ensures FrameByFrameScore(f, 0, 0) == 14
  {
    assert SumFrom(f, 18) == 0;
    assert SumFrom(f, 17) == 0;
    assert FrameByFrameScore(f, 17, 9) == 0;
    assert FrameByFrameScore(f, 15, 8) == 0;
    assert FrameByFrameScore(f, 13, 7) == 0;
    assert FrameByFrameScore(f, 11, 6) == 0;
    assert FrameByFrameScore(f, 9, 5) == 0;
    assert FrameByFrameScore(f, 7, 4) == 0;
    assert FrameByFrameScore(f, 5, 3) == 2;
    assert FrameByFrameScore(f, 4, 2) == 14;
    assert FrameByFrameScore(f, 2, 1) == 14;
  }

  /** JUnit case "strike in middle frame": the game scores 14. */
  lemma StrikeInMiddleFrameThenTwoOnes(f: seq<int>)
    requires StrikeInMiddleFrameThenTwoOnesThrows(f)
    ensures Score(f) == Success(14)
  {
    StrikeInMiddleFrameThenTwoOnesWalkEnd(f);
    StrikeInMiddleFrameThenTwoOnesFrameTotal(f);
    ScoreSucceedsIffWalkEnd(f);
  }

  /** JUnit case "spare in middle frame" (TestScoreCard.java:95-97): the throws
      [0, 0, 0, 0, 1, 9, 0, 0, 0, 0, 0, 0, 0, 0, 0, 0, 0, 0, 0, 0]. */
  predicate SpareInMiddleFrameThrows(f: seq<int>) {
    && |f| == 20
    && f[0] == 0 && f[1] == 0 && f[2] == 0 && f[3] == 0 && f[4] == 1 && f[5] == 9 && f[6] == 0 && f[7] == 0 && f[8] == 0 && f[9] == 0
    && f[10] == 0 && f[11] == 0 && f[12] == 0 && f[13] == 0 && f[14] == 0 && f[15] == 0 && f[16] == 0 && f[17] == 0 && f[18] == 0 && f[19] == 0
  }

  /** In "spare in middle frame" the first nine frames end at throw 18, inside the game. */
  lemma SpareInMiddleFrameWalkEnd(f: seq<int>)
    requires SpareInMiddleFrameThrows(f)
    ensures WalkEnd(f, 0, 0) == 18
  {
  }

  /** The frame-by-frame total of "spare in middle frame" is 10. */
  lemma SpareInMiddleFrameFrameTotal(f: seq<int>)
    requires SpareInMiddleFrameThrows(f)
    ensures FrameByFrameScore(f, 0, 0) == 10
  {
    assert SumFrom(f, 19) == 0;
    assert SumFrom(f, 18) == 0;
    assert FrameByFrameScore(f, 18, 9) == 0;
    assert FrameByFrameScore(f, 16, 8) == 0;
    assert FrameByFrameScore(f, 14, 7) == 0;
    assert FrameByFrameScore(f, 12, 6) == 0;
    assert FrameByFrameScore(f, 10, 5) == 0;
    assert FrameByFrameScore(f, 8, 4) == 0;
    assert FrameByFrameScore(f, 6, 3) == 0;
    assert FrameByFrameScore(f, 4, 2) == 10;
    assert FrameByFrameScore(f, 2, 1) == 10;
  }

  /** JUnit case "spare in middle frame": the game scores 10. */
  lemma SpareInMiddleFrame(f: seq<int>)
    requires SpareInMiddleFrameThrows(f)
    ensures Score(f) == Success(10)
  {
    SpareInMiddleFrameWalkEnd(f);
    SpareInMiddleFrameFrameTotal(f);
    ScoreSucceedsIffWalkEnd(f);
  }

  /** JUnit case "spare in middle frame" (TestScoreCard.java:98-99): the throws
      [0, 0, 0, 0, 1, 9, 1, 0, 0, 0, 0, 0, 0, 0, 0, 0, 0, 0, 0, 0]. */
  predicate SpareInMiddleFrameThenOneThrows(f: seq<int>) {
    && |f| == 20
    && f[0] == 0 && f[1] == 0 && f[2] == 0 && f[3] == 0 && f[4] == 1 && f[5] == 9 && f[6] == 1 && f[7] == 0 && f[8] == 0 && f[9] == 0
    && f[10] == 0 && f[11] == 0 && f[12] == 0 && f[13] == 0 && f[14] == 0 && f[15] == 0 && f[16] == 0 && f[17] == 0 && f[18] == 0 && f[19] == 0
  }

  /** In "spare in middle frame" the first nine frames end at throw 18, inside the game. */
  lemma SpareInMiddleFrameThenOneWalkEnd(f: seq<int>)
    requires SpareInMiddleFrameThenOneThrows(f)
    ensures WalkEnd(f, 0, 0) == 18
  {
  }

  /** The frame-by-frame total of "spare in middle frame" is 12. */
  lemma SpareInMiddleFrameThenOneFrameTotal(f: seq<int>)
    requires SpareInMiddleFrameThenOneThrows(f)
    ensures FrameByFrameScore(f, 0, 0) == 12
  {
    assert SumFrom(f, 19) == 0;
    assert SumFrom(f, 18) == 0;
    assert FrameByFrameScore(f, 18, 9) == 0;
    assert FrameByFrameScore(f, 16, 8) == 0;
    assert FrameByFrameScore(f, 14, 7) == 0;
    assert FrameByFrameScore(f, 12, 6) == 0;
    assert FrameByFrameScore(f, 10, 5) == 0;
    assert FrameByFrameScore(f, 8, 4) == 0;
    assert FrameByFrameScore(f, 6, 3) == 1;
    assert FrameByFrameScore(f, 4, 2) == 12;
    assert FrameByFrameScore(f, 2, 1) == 12;
  }

  /** JUnit case "spare in middle frame": the game scores 12. */
  lemma SpareInMiddleFrameThenOne(f: seq<int>)
    requires SpareInMiddleFrameThenOneThrows(f)
    ensures Score(f) == Success(12)
  {
    SpareInMiddleFrameThenOneWalkEnd(f);
    SpareInMiddleFrameThenOneFrameTotal(f);
    ScoreSucceedsIffWalkEnd(f);
  }

  /** JUnit case "spare in middle frame" (TestScoreCard.java:100-101): the throws
      [0, 0, 0, 0, 1, 9, 1, 1, 0, 0, 0, 0, 0, 0, 0, 0, 0, 0, 0, 0]. */
  predicate SpareInMiddleFrameThenTwoOnesThrows(f: seq<int>) {
    && |f| == 20
    && f[0] == 0 && f[1] == 0 && f[2] == 0 && f[3] == 0 && f[4] == 1 && f[5] == 9 && f[6] == 1 && f[7] == 1 && f[8] == 0 && f[9] == 0
    && f[10] == 0 && f[11] == 0 && f[12] == 0 && f[13] == 0 && f[14] == 0 && f[15] == 0 && f[16] == 0 && f[17] == 0 && f[18] == 0 && f[19] == 0
  }

  /** In "spare in middle frame" the first nine frames end at throw 18, inside the game. */
  lemma SpareInMiddleFrameThenTwoOnesWalkEnd(f: seq<int>)
    requires SpareInMiddleFrameThenTwoOnesThrows(f)
    ensures WalkEnd(f, 0, 0) == 18
  {
  }

  /** The frame-by-frame total of "spare in middle frame" is 13. */
  lemma SpareInMiddleFrameThenTwoOnesFrameTotal(f: seq<int>)
    requires SpareInMiddleFrameThenTwoOnesThrows(f)
    ensures FrameByFrameScore(f, 0, 0) == 13
  {
    assert SumFrom(f, 19) == 0;
    assert SumFrom(f, 18) == 0;
    assert FrameByFrameScore(f, 18, 9) == 0;
    assert FrameByFrameScore(f, 16, 8) == 0;
    assert FrameByFrameScore(f, 14, 7) == 0;
    assert FrameByFrameScore(f, 12, 6) == 0;
    assert FrameByFrameScore(f, 10, 5) == 0;
    assert FrameByFrameScore(f, 8, 4) == 0;
    assert FrameByFrameScore(f, 6, 3) == 2;
    assert FrameByFrameScore(f, 4, 2) == 13;
    assert FrameByFrameScore(f, 2, 1) == 13;
  }

  /** JUnit case "spare in middle frame": the game scores 13. */
  lemma SpareInMiddleFrameThenTwoOnes(f: seq<int>)
    requires SpareInMiddleFrameThenTwoOnesThrows(f)
    ensures Score(f) == Success(13)
  {
    SpareInMiddleFrameThenTwoOnesWalkEnd(f);
    SpareInMiddleFrameThenTwoOnesFrameTotal(f);
    ScoreSucceedsIffWalkEnd(f);
  }

  /** JUnit case "strikes in 10th frame" (TestScoreCard.java:102-104): the throws
      [0, 0, 0, 0, 0, 0, 0, 0, 0, 0, 0, 0, 0, 0, 0, 0, 0, 0, 10]. */
  predicate StrikeInTenthFrameThrows(f: seq<int>) {
    && |f| == 19
    && f[0] == 0 && f[1] == 0 && f[2] == 0 && f[3] == 0 && f[4] == 0 && f[5] == 0 && f[6] == 0 && f[7] == 0 && f[8] == 0 && f[9] == 0
    && f[10] == 0 && f[11] == 0 && f[12] == 0 && f[13] == 0 && f[14] == 0 && f[15] == 0 && f[16] == 0 && f[17] == 0 && f[18] == 10
  }

  /** In "strikes in 10th frame" the first nine frames end at throw 18, inside the game. */
  lemma StrikeInTenthFrameWalkEnd(f: seq<int>)
    requires StrikeInTenthFrameThrows(f)
    ensures WalkEnd(f, 0, 0) == 18
  {
  }

  /** The frame-by-frame total of "strikes in 10th frame" is 10. */
  lemma StrikeInTenthFrameFrameTotal(f: seq<int>)
    requires StrikeInTenthFrameThrows(f)
    ensures FrameByFrameScore(f, 0, 0) == 10
  {
    assert SumFrom(f, 18) == 10;
    assert FrameByFrameScore(f, 18, 9) == 10;
    assert FrameByFrameScore(f, 16, 8) == 10;
    assert FrameByFrameScore(f, 14, 7) == 10;
    assert FrameByFrameScore(f, 12, 6) == 10;
    assert FrameByFrameScore(f, 10, 5) == 10;
    assert FrameByFrameScore(f, 8, 4) == 10;
    assert FrameByFrameScore(f, 6, 3) == 10;
    assert FrameByFrameScore(f, 4, 2) == 10;
    assert FrameByFrameScore(f, 2, 1) == 10;
  }

  /** JUnit case "strikes in 10th frame": the game scores 10. */
  lemma StrikeInTenthFrame(f: seq<int>)
    requires StrikeInTenthFrameThrows(f)
    ensures Score(f) == Success(10)
  {
    StrikeInTenthFrameWalkEnd(f);
    StrikeInTenthFrameFrameTotal(f);
    ScoreSucceedsIffWalkEnd(f);
  }

  /** JUnit case "strikes in 10th frame" (TestScoreCard.java:105-106): the throws
      [0, 0, 0, 0, 0, 0, 0, 0, 0, 0, 0, 0, 0, 0, 0, 0, 10, 10, 10]. */
  predicate StrikesInTenthFrameThrows(f: seq<int>) {
    && |f| == 19
    && f[0] == 0 && f[1] == 0 && f[2] == 0 && f[3] == 0 && f[4] == 0 && f[5] == 0 && f[6] == 0 && f[7] == 0 && f[8] == 0 && f[9] == 0
    && f[10] == 0 && f[11] == 0 && f[12] == 0 && f[13] == 0 && f[14] == 0 && f[15] == 0 && f[16] == 10 && f[17] == 10 && f[18] == 10
  }

  /** In "strikes in 10th frame" the first nine frames end at throw 17, inside the game. */
  lemma StrikesInTenthFrameWalkEnd(f: seq<int>)
    requires StrikesInTenthFrameThrows(f)
    ensures WalkEnd(f, 0, 0) == 17
  {
  }

  /** The frame-by-frame total of "strikes in 10th frame" is 50. */
  lemma StrikesInTenthFrameFrameTotal(f: seq<int>)
    requires StrikesInTenthFrameThrows(f)
    ensures FrameByFrameScore(f, 0, 0) == 50
  {
    assert SumFrom(f, 18) == 10;
    assert SumFrom(f, 17) == 20;
    assert FrameByFrameScore(f, 17, 9) == 20;
    assert FrameByFrameScore(f, 16, 8) == 50;
    assert FrameByFrameScore(f, 14, 7) == 50;
    assert FrameByFrameScore(f, 12, 6) == 50;
    assert FrameByFrameScore(f, 10, 5) == 50;
    assert FrameByFrameScore(f, 8, 4) == 50;
    assert FrameByFrameScore(f, 6, 3) == 50;
    assert FrameByFrameScore(f, 4, 2) == 50;
    assert FrameByFrameScore(f, 2, 1) == 50;
  }

  /** JUnit case "strikes in 10th frame": the game scores 50. */
  lemma StrikesInTenthFrame(f: seq<int>)
    requires StrikesInTenthFrameThrows(f)
    ensures Score(f) == Success(50)
  {
    StrikesInTenthFrameWalkEnd(f);
    StrikesInTenthFrameFrameTotal(f);
    ScoreSucceedsIffWalkEnd(f);
  }

  /** JUnit case "spare in 10th frame" (TestScoreCard.java:107-109): the throws
      [0, 0, 0, 0, 0, 0, 0, 0, 0, 0, 0, 0, 0, 0, 0, 0, 0, 0, 9, 1]. */
  predicate SpareInTenthFrameThrows(f: seq<int>) {
    && |f| == 20
    && f[0] == 0 && f[1] == 0 && f[2] == 0 && f[3] == 0 && f[4] == 0 && f[5] == 0 && f[6] == 0 && f[7] == 0 && f[8] == 0 && f[9] == 0
    && f[10] == 0 && f[11] == 0 && f[12] == 0 && f[13] == 0 && f[14] == 0 && f[15] == 0 && f[16] == 0 && f[17] == 0 && f[18] == 9 && f[19] == 1
  }

  /** In "spare in 10th frame" the first nine frames end at throw 18, inside the game. */
  lemma SpareInTenthFrameWalkEnd(f: seq<int>)
    requires SpareInTenthFrameThrows(f)
    ensures WalkEnd(f, 0, 0) == 18
  {
  }

  /** The frame-by-frame total of "spare in 10th frame" is 10. */
  lemma SpareInTenthFrameFrameTotal(f: seq<int>)
    requires SpareInTenthFrameThrows(f)
    ensures FrameByFrameScore(f, 0, 0) == 10
  {
    assert SumFrom(f, 19) == 1;
    assert SumFrom(f, 18) == 10;
    assert FrameByFrameScore(f, 18, 9) == 10;
    assert FrameByFrameScore(f, 16, 8) == 10;
    assert FrameByFrameScore(f, 14, 7) == 10;
    assert FrameByFrameScore(f, 12, 6) == 10;
    assert FrameByFrameScore(f, 10, 5) == 10;
    assert FrameByFrameScore(f, 8, 4) == 10;
    assert FrameByFrameScore(f, 6, 3) == 10;
    assert FrameByFrameScore(f, 4, 2) == 10;
    assert FrameByFrameScore(f, 2, 1) == 10;
  }

  /** JUnit case "spare in 10th frame": the game scores 10. */
  lemma SpareInTenthFrame(f: seq<int>)
    requires SpareInTenthFrameThrows(f)
    ensures Score(f) == Success(10)
  {
    SpareInTenthFrameWalkEnd(f);
    SpareInTenthFrameFrameTotal(f);
    ScoreSucceedsIffWalkEnd(f);
  }

  /** JUnit case "spare first frame" (TestScoreCard.java:110-112): the throws
      [6, 4, 5, 2, 0, 0, 0, 0, 0, 0, 0, 0, 0, 0, 0, 0, 0, 0, 0, 0]. */
  predicate SpareFirstFrameThrows(f: seq<int>) {
    && |f| == 20
    && f[0] == 6 && f[1] == 4 && f[2] == 5 && f[3] == 2 && f[4] == 0 && f[5] == 0 && f[6] == 0 && f[7] == 0 && f[8] == 0 && f[9] == 0
    && f[10] == 0 && f[11] == 0 && f[12] == 0 && f[13] == 0 && f[14] == 0 && f[15] == 0 && f[16] == 0 && f[17] == 0 && f[18] == 0 && f[19] == 0
  }

  /** In "spare first frame" the first nine frames end at throw 18, inside the game. */
  lemma SpareFirstFrameWalkEnd(f: seq<int>)
    requires SpareFirstFrameThrows(f)
    ensures WalkEnd(f, 0, 0) == 18
  {
  }

  /** The frame-by-frame total of "spare first frame" is 22. */
  lemma SpareFirstFrameFrameTotal(f: seq<int>)
    requires SpareFirstFrameThrows(f)
    ensures FrameByFrameScore(f, 0, 0) == 22
  {
    assert SumFrom(f, 19) == 0;
    assert SumFrom(f, 18) == 0;
    assert FrameByFrameScore(f, 18, 9) == 0;
    assert FrameByFrameScore(f, 16, 8) == 0;
    assert FrameByFrameScore(f, 14, 7) == 0;
    assert FrameByFrameScore(f, 12, 6) == 0;
    assert FrameByFrameScore(f, 10, 5) == 0;
    assert FrameByFrameScore(f, 8, 4) == 0;
    assert FrameByFrameScore(f, 6, 3) == 0;
    assert FrameByFrameScore(f, 4, 2) == 0;
    assert FrameByFrameScore(f, 2, 1) == 7;
  }

  /** JUnit case "spare first frame": the game scores 22. */
  lemma SpareFirstFrame(f: seq<int>)
    requires SpareFirstFrameThrows(f)
    ensures Score(f) == Success(22)
  {
    SpareFirstFrameWalkEnd(f);
    SpareFirstFrameFrameTotal(f);
    ScoreSucceedsIffWalkEnd(f);
  }

  /** JUnit case "strike first frame" (TestScoreCard.java:113-115): the throws
      [10, 5, 2, 7, 0, 0, 0, 0, 0, 0, 0, 0, 0, 0, 0, 0, 0, 0, 0]. */
  predicate StrikeFirstFrameThrows(f: seq<int>) {
    && |f| == 19
    && f[0] == 10 && f[1] == 5 && f[2] == 2 && f[3] == 7 && f[4] == 0 && f[5] == 0 && f[6] == 0 && f[7] == 0 && f[8] == 0 && f[9] == 0
    && f[10] == 0 && f[11] == 0 && f[12] == 0 && f[13] == 0 && f[14] == 0 && f[15] == 0 && f[16] == 0 && f[17] == 0 && f[18] == 0
  }

  /** In "strike first frame" the first nine frames end at throw 17, inside the game. */
  lemma StrikeFirstFrameWalkEnd(f: seq<int>)
    requires StrikeFirstFrameThrows(f)
    ensures WalkEnd(f, 0, 0) == 17
  {
  }

  /** The frame-by-frame total of "strike first frame" is 31. */
  lemma StrikeFirstFrameFrameTotal(f: seq<int>)
    requires StrikeFirstFrameThrows(f)
    ensures FrameByFrameScore(f, 0, 0) == 31
  {
    assert SumFrom(f, 18) == 0;
    assert SumFrom(f, 17) == 0;
    assert FrameByFrameScore(f, 17, 9) == 0;
    assert FrameByFrameScore(f, 15, 8) == 0;
    assert FrameByFrameScore(f, 13, 7) == 0;
    assert FrameByFrameScore(f, 11, 6) == 0;
    assert FrameByFrameScore(f, 9, 5) == 0;
    assert FrameByFrameScore(f, 7, 4) == 0;
    assert FrameByFrameScore(f, 5, 3) == 0;
    assert FrameByFrameScore(f, 3, 2) == 7;
    assert FrameByFrameScore(f, 1, 1) == 14;
  }

  /** JUnit case "strike first frame": the game scores 31. */
  lemma StrikeFirstFrame(f: seq<int>)
    requires StrikeFirstFrameThrows(f)
    ensures Score(f) == Success(31)
  {
    StrikeFirstFrameWalkEnd(f);
    StrikeFirstFrameFrameTotal(f);
    ScoreSucceedsIffWalkEnd(f);
  }
}
