# Ten-pin bowling score card, modelled in Dafny

`ScoreCard` scores one game of ten-pin bowling. Its input is the flat array
F of pins knocked down by each ball thrown, so a strike is one entry (`10`),
not `10, 0`. The constructor builds an n-by-n score matrix A, where n is the
number of throws, and `getScore` returns J·A·F, where J is the row vector of
n ones.

A starts as the identity. The constructor then walks the first nine frames:

- a strike at throw b sets A[b][b+1] and A[b][b+2];
- a spare whose second ball is throw b+1 sets A[b+1][b+2];
- an open frame sets nothing.

Any bonus column past the last throw (column n or beyond) is skipped
silently. The tenth frame, and every throw after it, is never walked: its
bonus balls are plain throws in F. The worked example of the class comment
is the game `[10, 1, 1]`. Its matrix is `[1 1 1; 0 1 0; 0 0 1]` and it scores 14.

The project has four modules:

- `Matrices` (`matrices.dfy`): the exact-integer stand-in for the parts of
  the linear-algebra library the class uses. These are the identity, the
  one-entry update, and the product v·a·w, associated as (v·a)·w. It also
  holds the loops `MultRow` and `MultDot`.
- `ScoreCard` (`score_card.dfy`): the engine.
  - The four constants: `MaxPinsPerFrame` 10, `TotalFrames` 10,
    `BonusFramesPerStrike` 2, `BonusFramesPerSpare` 1.
  - The frame walker `Walk`, as a function over a cursor and a frame count.
  - `BonusMatrix`, `ScoreMatrix` and `Score`.
  - The methods that follow the class's own loops: `InitializeCalculation`,
    `AddBonus`, `MarkFrame`, `PopulateScoreMatrix`, `GetScore` and
    `ScoreGame`. `addStrikeBonus` and `addSpareBonus` are the two calls to
    `AddBonus` inside `MarkFrame`, one with `BonusFramesPerStrike` and one
    with `BonusFramesPerSpare`.
  - The reference definition `FrameByFrameScore`: the conventional
    frame-by-frame total, proved equal to J·A·F.
- `ScoreCardProperties` (`score_card_properties.dfy`): how the nine walked
  frames lie over the throws, which rows each kind of frame marks, when a
  game can be scored, and scores of games without bonuses or of gutter balls
  only. It shows how the score moves when one throw changes while the bonus
  marks stay the same. It also defines a legal game (`LegalGame`) and proves
  that every legal game scores between 0 and 300.
- `ScoreCardVectors` (`score_card_vectors.dfy`): the eighteen games of the
  JUnit data set and the class comment's example, each proved to score what
  the test expects. Each game is a predicate fixing its throws one by one,
  and the game's lemmas require it. The third "strike in middle frame" game
  is taken as the array is written in the test file: four zeros, `10, 1, 1`,
  then twelve zeros, 19 throws in all. One more game, `[7, 3, 9, 0]`, shows
  that a change of one throw that also changes the marks is not bounded by
  three times the change.

The spare test reads the second ball of a frame without checking that it
exists (ScoreCard.java:120). In the model that read is an error result,
`Failure(ReadPastEnd(n))`, and never a precondition. So `ScoreMatrix`,
`Score`, `PopulateScoreMatrix` and `ScoreGame` are total over every sequence
of integers. They fail exactly when a frame among the first nine is not a
strike and starts on the last throw.

## Model

| member | source | states |
|---|---|---|
| Matrices.Identity | src/main/java/com/hireme/bowling/ScoreCard.java:101 | The n-by-n identity: square, 1 on the diagonal, 0 everywhere else. |
| Matrices.Set | src/main/java/com/hireme/bowling/ScoreCard.java:135 | Setting one entry changes that entry to the new value and keeps every other entry. |
| Matrices.ProductAfterSet | src/main/java/com/hireme/bowling/ScoreCard.java:135 | Setting entry (i, j) to x changes v·A·w by exactly v[i]·(x - A[i][j])·w[j]. |
| Matrices.ProductOnesIdentity | src/main/java/com/hireme/bowling/ScoreCard.java:101-108 | With A still the identity, J·A·F is the plain sum of the throws. |
| Matrices.MultRow | src/main/java/com/hireme/bowling/ScoreCard.java:155 | The loop computes the row vector J·A, column by column. |
| Matrices.MultDot | src/main/java/com/hireme/bowling/ScoreCard.java:155 | The loop computes the dot product (J·A)·F. |
| ScoreCard.InitializeCalculation | src/main/java/com/hireme/bowling/ScoreCard.java:99-109 | A is the identity of the game's size, F holds the throws in order, and J is n ones. |
| ScoreCard.AddBonus | src/main/java/com/hireme/bowling/ScoreCard.java:131-138 | Entry (ballIdx, ballIdx + bb) becomes 1 for every bb from 1 to numBonusFrames whose column lies inside the matrix. Every other entry keeps its value, and a column past the last throw is skipped silently. |
| ScoreCard.BonusMarksShape | src/main/java/com/hireme/bowling/ScoreCard.java:132-136 | One addBonus call marks only its own row, and only columns row+1 .. row+count inside the matrix. It marks every such column, each once and in increasing order. |
| ScoreCard.AddBonusWritesMarks | src/main/java/com/hireme/bowling/ScoreCard.java:131-138 | After addBonus, the matrix holds exactly the marks it held before plus that call's marks. |
| ScoreCard.FrameStarts | src/main/java/com/hireme/bowling/ScoreCard.java:114-126 | The walker visits at most nine frames. The first starts at the cursor, and every frame start is a throw of the game. |
| ScoreCard.WalkEndAfterLastFrame | src/main/java/com/hireme/bowling/ScoreCard.java:114-126 | The walk ends right after its last frame. It stops with fewer than nine frames only when the cursor has run past the last throw. |
| ScoreCard.Walk | src/main/java/com/hireme/bowling/ScoreCard.java:114-127 | When the walk fails, the failed read is the index one past the last throw. |
| ScoreCard.FrameBonusShape | src/main/java/com/hireme/bowling/ScoreCard.java:117-126 | A frame's marks lie on the frame's own rows, above the diagonal, at most two columns to its right, inside the matrix and in row-major order. |
| ScoreCard.FrameBonusMarks | src/main/java/com/hireme/bowling/ScoreCard.java:117-126 | The marks written for a frame are exactly the ones the rules call for. A strike marks the next two throws on its row, whatever those throws are. A spare marks the next throw on its second ball's row. An open frame marks nothing. |
| ScoreCard.FrameBonusSum | src/main/java/com/hireme/bowling/ScoreCard.java:117-126 | A frame's marks add the next two throws after a strike, the next throw after a spare, and nothing after an open frame. A missing throw adds 0. |
| ScoreCard.BonusMarksSum | src/main/java/com/hireme/bowling/ScoreCard.java:131-138 | Skipping columns past the last throw loses no pins: one addBonus call adds exactly the pins of the next `count` throws that exist. |
| ScoreCard.WalkMarksShape | src/main/java/com/hireme/bowling/ScoreCard.java:114-127 | Every mark of a successful walk lies above the diagonal and at most two columns to its right. It lies inside the matrix and on a row before the tenth frame. |
| ScoreCard.WalkOrdered | src/main/java/com/hireme/bowling/ScoreCard.java:114-127 | The walker writes its marks in strictly increasing row-major order, so no entry is written twice. |
| ScoreCard.WalkSucceedsIff | src/main/java/com/hireme/bowling/ScoreCard.java:114-122 | The walk succeeds exactly when every walked frame that is not a strike has its second ball in the game. |
| ScoreCard.WalkMarksFromFrames | src/main/java/com/hireme/bowling/ScoreCard.java:114-127 | A mark is written if and only if some frame among the first nine calls for it. |
| ScoreCard.WriteMarksEntries | src/main/java/com/hireme/bowling/ScoreCard.java:135 | After the writes, every marked entry is 1 and every other entry is what it was. |
| ScoreCard.WriteMarksProduct | src/main/java/com/hireme/bowling/ScoreCard.java:131-138 | Writing distinct marks into zero entries adds the pins of each marked throw to J·A·F. |
| ScoreCard.BonusMatrixProduct | src/main/java/com/hireme/bowling/ScoreCard.java:154-158 | J·A·F of the bonus matrix is the sum of all throws plus the pins of every marked throw. |
| ScoreCard.WalkMatchesFrameByFrame | src/main/java/com/hireme/bowling/ScoreCard.java:114-127 | The pins from the cursor on, plus the walk's bonuses, equal the frame-by-frame total from the cursor on. |
| ScoreCard.BonusMatrixScore | src/main/java/com/hireme/bowling/ScoreCard.java:154-158 | For a successful walk, J·A·F is the sum of the throws plus the bonus pins. That equals the frame-by-frame total. |
| ScoreCard.BonusMatrixShaped | src/main/java/com/hireme/bowling/ScoreCard.java:112-138 | A is unit upper-triangular with 0/1 entries. Every off-diagonal 1 is at most two columns right of the diagonal. |
| ScoreCard.BonusMatrixMarksFrames | src/main/java/com/hireme/bowling/ScoreCard.java:112-138 | Off the diagonal, A[i][j] is 1 exactly when a frame among the first nine calls for throw j to count again on row i. |
| ScoreCard.TenthFrameRowsUnmarked | src/main/java/com/hireme/bowling/ScoreCard.java:114-115 | The rows of the tenth frame and of every later throw hold only their diagonal 1. |
| ScoreCard.BonusMatrixEntry | src/main/java/com/hireme/bowling/ScoreCard.java:131-138 | Every entry of A is 1 on the diagonal or at a mark, and 0 everywhere else. A mark lies at most two columns right of the diagonal, on a row before the tenth frame. |
| ScoreCard.MarkFrame | src/main/java/com/hireme/bowling/ScoreCard.java:116-126 | One pass of the loop body writes exactly the frame's marks, and the strike test comes before the spare test. The cursor moves one throw after a strike and two otherwise, matching one step of the walk. |
| ScoreCard.ScoreMatrix | src/main/java/com/hireme/bowling/ScoreCard.java:112-127 | The score matrix exists exactly when every second ball the spare test reads is in the game. Otherwise it is the failed read at index n. When it exists it is n-by-n. |
| ScoreCard.PopulateScoreMatrix | src/main/java/com/hireme/bowling/ScoreCard.java:112-127 | Run on the identity, the loop produces the score matrix of the walk, or fails on the missing second ball. |
| ScoreCard.GetScore | src/main/java/com/hireme/bowling/ScoreCard.java:154-158 | The score is J·A·F, associated as (J·A)·F. |
| ScoreCard.ScoreMatrixScore | src/main/java/com/hireme/bowling/ScoreCard.java:154-158 | J·A·F with the score matrix is the game's frame-by-frame total. |
| ScoreCard.Score | src/main/java/com/hireme/bowling/ScoreCard.java:94-158 | The game can be scored exactly when the second balls the spare test reads are present. Otherwise the result is the failed read at index n. The score is the conventional frame-by-frame total. |
| ScoreCard.ScoreGame | src/main/java/com/hireme/bowling/ScoreCard.java:94-97 | The constructor followed by getScore gives Score. It succeeds exactly when the spare test's reads are in the game, and then returns the frame-by-frame total. |
| ScoreCardProperties.FrameStartsStep | src/main/java/com/hireme/bowling/ScoreCard.java:114-126 | Each walked frame starts right after the one before: one throw after a strike, two otherwise. |
| ScoreCardProperties.FirstNineFrames | src/main/java/com/hireme/bowling/ScoreCard.java:114-127 | The walk over a whole game visits at most nine frames. The first starts at throw 0 and each starts right after the one before. It stops early only past the last throw, and otherwise at the tenth frame's first ball. |
| ScoreCardProperties.SecondBallStartsNoFrame | src/main/java/com/hireme/bowling/ScoreCard.java:120-126 | The throw after the first ball of a frame that is not a strike never starts a frame. |
| ScoreCardProperties.SecondBallsPresentIffWalkEnd | src/main/java/com/hireme/bowling/ScoreCard.java:114-122 | Every second ball the walk reads is present exactly when the nine walked frames end at or before the end of the game. |
| ScoreCardProperties.ScoreSucceedsIffWalkEnd | src/main/java/com/hireme/bowling/ScoreCard.java:114-122 | A game can be scored exactly when its first nine frames end at or before its last throw. |
| ScoreCardProperties.StrikeFrameMarks | src/main/java/com/hireme/bowling/ScoreCard.java:117-119 | A strike marks the next two throws on its own row, and only those, even when the next throw is 0. The row of the next throw is marked only when that throw is itself a strike. |
| ScoreCardProperties.SpareFrameMarks | src/main/java/com/hireme/bowling/ScoreCard.java:120-122 | A spare marks the throw after it on its second ball's row. It marks nothing on its first ball's row and nothing else on the second. |
| ScoreCardProperties.OpenFrameUnmarked | src/main/java/com/hireme/bowling/ScoreCard.java:123-126 | An open frame leaves both of its rows unmarked. |
| ScoreCardProperties.OpenGameScoresPins | src/main/java/com/hireme/bowling/ScoreCard.java:154-158 | A game whose first nine frames are all open scores the plain sum of its throws. |
| ScoreCardProperties.ScoreAtLeastPins | src/main/java/com/hireme/bowling/ScoreCard.java:154-158 | With no negative throw, a game scores at least the pins knocked down. |
| ScoreCardProperties.ScoreFailsIff | src/main/java/com/hireme/bowling/ScoreCard.java:120 | Scoring fails exactly when a frame among the first nine is not a strike and starts on the last throw. The failure names index n. |
| ScoreCardProperties.SumOneChanged | src/main/java/com/hireme/bowling/ScoreCard.java:154-155 | Replacing throw j by x changes the plain sum of the throws, J·I·F, by x minus the old throw. |
| ScoreCardProperties.BonusSumOneChanged | src/main/java/com/hireme/bowling/ScoreCard.java:131-138 | Replacing throw j by x changes the bonus pins by x minus the old throw once for each mark written in column j. |
| ScoreCardProperties.MarksInColumnBelow | src/main/java/com/hireme/bowling/ScoreCard.java:131-138 | Marks in strictly increasing row-major order that put column j only on rows j-2 up to hi-1 number at most hi-j+2 in that column; with hi = j, at most two. |
| ScoreCardProperties.OneThrowChangedScore | src/main/java/com/hireme/bowling/ScoreCard.java:154-158 | When the walk writes the same marks before and after throw j becomes x, both games can be scored. The score changes by (1 + c)·(x - f[j]), where c ≤ 2 is the number of marks in column j. |
| ScoreCardProperties.ScoreLocality | src/main/java/com/hireme/bowling/ScoreCard.java:154-158 | When the marks stay the same, changing one throw by d moves the score by at least abs(d) and at most 3·abs(d). |
| ScoreCardProperties.ScoreMonotone | src/main/java/com/hireme/bowling/ScoreCard.java:154-158 | When the marks stay the same, the score does not go down exactly when the changed throw does not go down. |
| ScoreCardProperties.GutterWalkEnd | src/main/java/com/hireme/bowling/ScoreCard.java:113-126 | With only gutter balls every walked frame has two throws. The walk ends inside the game exactly when nine frames fit or an even number of throws remains. |
| ScoreCardProperties.GutterGameScoresZero | src/main/java/com/hireme/bowling/ScoreCard.java:112-158 | Gutter balls of any number can be scored exactly when there are at least 18 of them or an even number. Such a game scores 0; otherwise scoring fails with index n. |
| ScoreCardProperties.SumFromBounds | src/main/java/com/hireme/bowling/ScoreCard.java:52-57 | When every throw knocks down 0 to 10 pins, the throws from a cursor on add up to between 0 and 10 per throw. |
| ScoreCardProperties.FrameByFrameBounds | src/main/java/com/hireme/bowling/ScoreCard.java:114-126 | When every throw knocks down 0 to 10 pins, the frame-by-frame total is never negative, and each of the walked frames adds at most 30 on top of the pins thrown after the walk. |
| ScoreCardProperties.LegalGameScoreBounds | src/main/java/com/hireme/bowling/ScoreCard.java:52-57 | Every legal game can be scored, and scores between 0 and 300. A legal game has throws of 0 to 10 pins and no frame over ten pins among the first nine. Its tenth frame, where the nine-frame walk stops, is a strike with two bonus balls, a spare with one, or an open frame. |
| ScoreCardVectors.StrikeThenTwoSinglePins | src/main/java/com/hireme/bowling/ScoreCard.java:17-45 | For `[10, 1, 1]` the score matrix is `[1 1 1; 0 1 0; 0 0 1]` and the score is 14. |
| ScoreCardVectors.MissingSecondBall | src/main/java/com/hireme/bowling/ScoreCard.java:120 | For `[10, 3]` the spare test reads throw 2, which is missing, and no score results. |
| ScoreCardVectors.SpareTurnedOpenChangesMarks | src/main/java/com/hireme/bowling/ScoreCard.java:116-126 | Lowering throw 1 of `[7, 3, 9, 0]` from 3 to 0 turns the spare into an open frame and changes the marks. The score drops from 28 to 16, more than three times the change. |
| ScoreCardVectors.AllGutterBalls | src/test/java/com/hireme/bowling/TestScoreCard.java:69-71 | Twenty zeros score 0. |
| ScoreCardVectors.PerfectGame | src/test/java/com/hireme/bowling/TestScoreCard.java:72-74 | Twelve strikes score 300. |
| ScoreCardVectors.PerfectGameIsLegal | src/test/java/com/hireme/bowling/TestScoreCard.java:72-74 | Twelve strikes form a legal game that scores 300, so the bound on legal games is reached. |
| ScoreCardVectors.NoStrikesOrSpares | src/test/java/com/hireme/bowling/TestScoreCard.java:75-77 | The open game scores 90, its plain sum. |
| ScoreCardVectors.StrikeOnNinthFrame | src/test/java/com/hireme/bowling/TestScoreCard.java:78-80 | A ninth-frame strike followed by 7, 2 scores 100. |
| ScoreCardVectors.StrikeOnNinthFrameThenGutters | src/test/java/com/hireme/bowling/TestScoreCard.java:81-82 | A ninth-frame strike followed by three zeros scores 82. |
| ScoreCardVectors.SpareOnNinthFrame | src/test/java/com/hireme/bowling/TestScoreCard.java:83-85 | Sixteen zeros and then 1, 9, 2, 0 score 14. |
| ScoreCardVectors.SpareOnNinthFrameThenOne | src/test/java/com/hireme/bowling/TestScoreCard.java:86-87 | Sixteen zeros and then 1, 9, 2, 1 score 15. |
| ScoreCardVectors.StrikeInMiddleFrame | src/test/java/com/hireme/bowling/TestScoreCard.java:88-90 | A third-frame strike followed by zeros scores 10. |
| ScoreCardVectors.StrikeInMiddleFrameThenOne | src/test/java/com/hireme/bowling/TestScoreCard.java:91-92 | A third-frame strike followed by 1, 0 scores 12. |
| ScoreCardVectors.StrikeInMiddleFrameThenTwoOnes | src/test/java/com/hireme/bowling/TestScoreCard.java:93-94 | A third-frame strike followed by 1, 1 scores 14. |
| ScoreCardVectors.SpareInMiddleFrame | src/test/java/com/hireme/bowling/TestScoreCard.java:95-97 | A third-frame spare followed by zeros scores 10. |
| ScoreCardVectors.SpareInMiddleFrameThenOne | src/test/java/com/hireme/bowling/TestScoreCard.java:98-99 | A third-frame spare followed by 1, 0 scores 12. |
| ScoreCardVectors.SpareInMiddleFrameThenTwoOnes | src/test/java/com/hireme/bowling/TestScoreCard.java:100-101 | A third-frame spare followed by 1, 1 scores 13. |
| ScoreCardVectors.StrikeInTenthFrame | src/test/java/com/hireme/bowling/TestScoreCard.java:102-104 | Eighteen zeros and then a lone strike score 10. |
| ScoreCardVectors.StrikesInTenthFrame | src/test/java/com/hireme/bowling/TestScoreCard.java:105-106 | Sixteen zeros and then three strikes score 50. |
| ScoreCardVectors.SpareInTenthFrame | src/test/java/com/hireme/bowling/TestScoreCard.java:107-109 | Eighteen zeros and then 9, 1 score 10. |
| ScoreCardVectors.SpareFirstFrame | src/test/java/com/hireme/bowling/TestScoreCard.java:110-112 | 6, 4, 5, 2 and then zeros score 22. |
| ScoreCardVectors.StrikeFirstFrame | src/test/java/com/hireme/bowling/TestScoreCard.java:113-115 | 10, 5, 2, 7 and then zeros score 31. |

## Left out

- Floating point: the class holds F, A and J in a double-precision matrix
  library, compares `frameScore` as a double (ScoreCard.java:116-120), and
  casts the product to `int` (ScoreCard.java:156-157). The model uses exact
  integers throughout. For pin counts of a real game every double involved is
  a small whole number, so the comparisons and the cast change nothing there.
- Java `int` range: throws and the score are unbounded integers. The `(int)`
  cast of the double product (ScoreCard.java:156-157) saturates at
  `Integer.MAX_VALUE` and `Integer.MIN_VALUE`, so any score outside the `int`
  range differs from the model's exact value. For example, `[2147483647,
  2147483647]` gives 2147483647 in Java and 4294967294 in the model. The
  saturation is not modelled.
- The library's behaviour on an out-of-range `get`: the unchecked read of the
  second ball (ScoreCard.java:120) is modelled as the error result
  `ReadPastEnd(n)`, not as the library's exception.
- The library's treatment of 0-by-0 matrices: the model scores a game with no
  throws 0. That case is not part of this model beyond that.
- The library's `mult` (ScoreCard.java:155) is modelled by the textbook
  loops `MultRow` and `MultDot`. The library's own algorithm is not part of
  this model.
- The input assumptions of the class comment (ScoreCard.java:52-57) are not
  checked, because the class does not check them either. The model accepts
  any sequence of integers, negative pins and frames over ten included, and
  scores it with the same rules. The assumption appears only as the
  hypothesis `LegalGame` of `LegalGameScoreBounds`.
- ScoreLocality: holds only while the walk writes the same marks. Without
  that condition, one changed throw can turn a spare into an open frame and
  move the score by more than three times the change. For example,
  `[2,1,4,0,7,3,7,3,3,1,7,0,6,3,9,0,7,2,3,1]` scores 79, and with throw 5
  lowered from 3 to 0 it scores 69. `ScoreCardVectors.SpareTurnedOpenChangesMarks`
  proves a shorter game of the same kind.
- ScoreMonotone: stated while the marks stay the same. Raising a throw of an
  open frame far enough to make it a spare adds a mark, and that case is not
  covered.
- Mutable object state: the fields of ScoreCard.java:82-85 become values
  passed from one method to the next.
- The "Future Considerations" of the class comment (running totals A·F,
  other game shapes) are not implemented in the source and are not modelled.
- The JUnit runner plumbing (parameterised runner, `TestData` holder,
  failure-message builder) is not modelled. Only its data set is, as the `ScoreCardVectors`
  lemmas.
