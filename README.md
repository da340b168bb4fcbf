# Amazons move engine (`QueenActions`) in Dafny

This project models the move engine of a Game of Amazons player. A board
snapshot is a flat list of integer cells (`EMPTY = 0`, `WHITE_QUEEN = 1`,
`BLACK_QUEEN = 2`, `ARROW = 3`). Square `(row, col)` is stored at index
`row * 11 + col`. A queen slides like a chess queen along one of eight
directions. After it moves, it fires an arrow along another queen line, and
the arrow's landing cell becomes `ARROW`.

The model has four modules:

- `Coordinates` (`Coordinates.dfy`): `rcToIndex` and `indexToRC`. Java's `/`
  and `%` truncate toward zero, and the model writes that out (`JavaRow`,
  `JavaCol`). Java's `null` result becomes `Option.None`.
- `Slides` (`Slides.dfy`): the cell values, the playable bound, the eight
  directions, and `getQueenMoves` / `getArrowShots`. Both are methods with the
  source's nested loops, proved against the function `QueenMoves`. That
  function is the concatenation of one `Ray` per direction. Lemmas
  characterise a ray: the open squares at distance 1..n in order, then a stop
  square that is not emitted, and nothing beyond it.
- `Moves` (`Moves.dfy`): `executeMove` and `isValidMove`. Both are methods over
  value boards, proved against `AfterMove` and `ValidMove`.
- `Pieces` (`Pieces.dfy`): `getQueenPositions`, a scan in index order, proved
  against `QueenPositions`.

Boards are `seq<int>` values. Java's `new ArrayList<>(gameState)` copy
followed by `set` calls becomes value updates, so "the input list is
unchanged" holds by construction.

The playable bound is kept as the code writes it:
`r < 1 || r > 9 || c < 1 || c > 9`. It is exposed as the constants
`PLAY_MIN = 1` and `PLAY_MAX = 9`. The documentation comments describe rows
and columns 1..10, but the code never admits row 10 or column 10 as a
destination. `CentreDownRay` shows the effect: a lone queen at (5, 5) slides
down only to row 9, although cell (10, 5) is `EMPTY` and inside the list.

Two behaviours of the code are worth knowing:

- The code never checks the board's length. A cell past the end of the list
  stops a slide (`Open`), and `executeMove` and `isValidMove` require the
  indices they read or write to lie inside the list.
- `indexToRC` checks both `row >= 11` and `col < 0`. With Java's truncating
  `%`, the column check does fire for some negative indices, such as -1. Other
  negative indices still decode, such as -11, which gives (-1, 0). See
  `DecodeNegative`.

## Model

| member | source | states |
|---|---|---|
| `Coordinates.JavaRow` | game-player-team-00-2021/team-00/src/main/java/ubc/cosc322/QueenActions.java:207 | Java's `index / 11`: for a non-negative index the quotient times 11 is at most the index and within 11 of it; for a negative index it is at least the index (truncation toward zero) |
| `Coordinates.JavaCol` | game-player-team-00-2021/team-00/src/main/java/ubc/cosc322/QueenActions.java:208 | Java's `index % 11`: quotient * 11 + remainder == index; the remainder is in 0..10 for a non-negative index and in -10..0 for a negative one |
| `Coordinates.RcToIndex` | game-player-team-00-2021/team-00/src/main/java/ubc/cosc322/QueenActions.java:194-198 | the index of a square with non-negative row and column is non-negative |
| `Coordinates.RcToIndexDecodes` | game-player-team-00-2021/team-00/src/main/java/ubc/cosc322/QueenActions.java:194-198 | for a non-negative row and a column in 0..10, the Java quotient and remainder of the index by 11 give back the row and the column |
| `Coordinates.IndexToRC` | game-player-team-00-2021/team-00/src/main/java/ubc/cosc322/QueenActions.java:206-213 | a decoded square always re-encodes to the index, with row < 11 and column in 0..10; for a non-negative index the result is null exactly when index >= 121, and otherwise it is (index / 11, index % 11) |
| `Coordinates.RoundTrip` | game-player-team-00-2021/team-00/src/main/java/ubc/cosc322/QueenActions.java:194-213 | for row and column in 0..10, `indexToRC(rcToIndex(r, c))` is `(r, c)` and the index lies in 0..120 |
| `Coordinates.RcToIndexInjective` | game-player-team-00-2021/team-00/src/main/java/ubc/cosc322/QueenActions.java:194-198 | two squares with non-negative rows and columns in 0..10 that share an index are the same square |
| `Coordinates.DecodeOutOfRange` | game-player-team-00-2021/team-00/src/main/java/ubc/cosc322/QueenActions.java:207-211 | indices 121 and 132 decode to null; 120 decodes to (10, 10) |
| `Coordinates.DecodeNegative` | game-player-team-00-2021/team-00/src/main/java/ubc/cosc322/QueenActions.java:207-212 | with Java's truncating arithmetic, -1 decodes to null but -11 decodes to (-1, 0) |
| `Slides.DirAt` | game-player-team-00-2021/team-00/src/main/java/ubc/cosc322/QueenActions.java:20-30 | the i-th entry of `DIRECTIONS`: up, down, left, right, up-left, up-right, down-left, down-right, as the `Dir` deltas (-1,0), (1,0), (0,-1), (0,1), (-1,-1), (-1,1), (1,-1), (1,1); those vectors are `Dir.DeltaRow` and `Dir.DeltaCol` |
| `Slides.DirectionsAreUnitSteps` | game-player-team-00-2021/team-00/src/main/java/ubc/cosc322/QueenActions.java:20-30 | `DIRECTIONS` lists each of the eight unit steps (row and column change in -1..1, not both 0) exactly once, and every direction appears in it |
| `Slides.InPlay` | game-player-team-00-2021/team-00/src/main/java/ubc/cosc322/QueenActions.java:53 | the negated bounds check of the slide holds exactly when row and column are both in `PLAY_MIN`..`PLAY_MAX` (1..9) |
| `Slides.Open` | game-player-team-00-2021/team-00/src/main/java/ubc/cosc322/QueenActions.java:53-59 | the condition under which a slide emits a square and continues: in play, index inside the list and cell `EMPTY`; when it holds the index is also non-negative, so the cell read is defined |
| `Slides.Ray` | game-player-team-00-2021/team-00/src/main/java/ubc/cosc322/QueenActions.java:44-64 | the squares one pass of the `while (true)` loop emits for one direction, nearest first, each step being `Next` (`r += dir[0]; c += dir[1]`, lines 49-50); characterised by `RayWalk`, `RayBlocking` and `RayMembership` |
| `Slides.Rays` | game-player-team-00-2021/team-00/src/main/java/ubc/cosc322/QueenActions.java:43-65 | the list after the first n iterations of the direction loop: those n rays concatenated in `DIRECTIONS` order; characterised by `RaysCover` and `RaysSource` |
| `Slides.QueenMoves` | game-player-team-00-2021/team-00/src/main/java/ubc/cosc322/QueenActions.java:40-68 | the list `getQueenMoves` returns: all eight rays in `DIRECTIONS` order; characterised by `QueenMovesByDirection`, `QueenMovesMembership` and `QueenMovesValid` |
| `Slides.GetQueenMoves` | game-player-team-00-2021/team-00/src/main/java/ubc/cosc322/QueenActions.java:40-68 | the nested direction loop and `while (true)` slide return exactly `QueenMoves`, the eight rays concatenated in `DIRECTIONS` order |
| `Slides.Slide` | game-player-team-00-2021/team-00/src/main/java/ubc/cosc322/QueenActions.java:44-64 | one pass of the `while (true)` loop appends to the list exactly the ray of its direction, nearest square first |
| `Slides.GetArrowShots` | game-player-team-00-2021/team-00/src/main/java/ubc/cosc322/QueenActions.java:78-81 | arrow shots are the identical list to the queen moves from the same square |
| `Slides.WalkProgress` | game-player-team-00-2021/team-00/src/main/java/ubc/cosc322/QueenActions.java:48-50 | each step `r += dir[0]; c += dir[1]` advances the position along its direction by exactly one |
| `Slides.WalkInjective` | game-player-team-00-2021/team-00/src/main/java/ubc/cosc322/QueenActions.java:48-50 | squares at different distances along one direction are different |
| `Slides.RaySquare` | game-player-team-00-2021/team-00/src/main/java/ubc/cosc322/QueenActions.java:48-61 | the k-th square a slide emits is the square at distance k, and it is open |
| `Slides.RayStop` | game-player-team-00-2021/team-00/src/main/java/ubc/cosc322/QueenActions.java:48-63 | the square just past the last emitted one is not open: out of bounds, past the list, or not `EMPTY` |
| `Slides.RayWalk` | game-player-team-00-2021/team-00/src/main/java/ubc/cosc322/QueenActions.java:48-64 | within a direction the k-th emitted square is the square at distance k (strictly increasing distance), every emitted square is open, and the square just past the last one is not open |
| `Slides.RayBlocking` | game-player-team-00-2021/team-00/src/main/java/ubc/cosc322/QueenActions.java:48-63 | scanning stops at the first square that is out of bounds, past the list or not `EMPTY`; that square and every square beyond it are never emitted, and every square before it is |
| `Slides.RayMembership` | game-player-team-00-2021/team-00/src/main/java/ubc/cosc322/QueenActions.java:48-63 | a square is emitted in a direction iff it is some distance k >= 1 away along it and the whole path up to and including it is open |
| `Slides.RayAvoidsOrigin` | game-player-team-00-2021/team-00/src/main/java/ubc/cosc322/QueenActions.java:48-60 | a ray never contains its own origin |
| `Slides.QueenMovesByDirection` | game-player-team-00-2021/team-00/src/main/java/ubc/cosc322/QueenActions.java:20-50 | the moves are grouped by direction in the fixed order up, down, left, right, up-left, up-right, down-left, down-right |
| `Slides.RaysCover` | game-player-team-00-2021/team-00/src/main/java/ubc/cosc322/QueenActions.java:43-65 | a square on the ray of one of the first n directions is among the moves collected after those n directions |
| `Slides.RaysSource` | game-player-team-00-2021/team-00/src/main/java/ubc/cosc322/QueenActions.java:43-65 | a square among the moves collected after the first n directions lies on the ray of one of them |
| `Slides.QueenMovesMembership` | game-player-team-00-2021/team-00/src/main/java/ubc/cosc322/QueenActions.java:40-68 | a square is a queen move iff it lies some distance k >= 1 from the origin along one of the eight directions and every square on the way, itself included, is open |
| `Slides.QueenMovesValid` | game-player-team-00-2021/team-00/src/main/java/ubc/cosc322/QueenActions.java:48-60 | every emitted square has row and column in 1..9, an index inside the list, an `EMPTY` cell, and is not the origin |
| `Slides.OriginNearBoard` | game-player-team-00-2021/team-00/src/main/java/ubc/cosc322/QueenActions.java:48-55 | a square with any move at all has row and column in 0..10 |
| `Slides.RayLength` | game-player-team-00-2021/team-00/src/main/java/ubc/cosc322/QueenActions.java:48-64 | a ray whose first k squares are open and whose next square is not has exactly k squares |
| `Slides.CentreDownRay` | game-player-team-00-2021/team-00/src/main/java/ubc/cosc322/QueenActions.java:53 | on a 121-cell board empty except under a queen at (5, 5), the downward slide emits exactly (6, 5), (7, 5), (8, 5), (9, 5) although cell (10, 5) is `EMPTY` and inside the list |
| `Moves.Simulated` | game-player-team-00-2021/team-00/src/main/java/ubc/cosc322/QueenActions.java:147-153 | the validator's temporary board has the same length, the start piece on the end cell, an `EMPTY` start cell when start and end differ, and every other cell unchanged |
| `Moves.AfterMove` | game-player-team-00-2021/team-00/src/main/java/ubc/cosc322/QueenActions.java:99-113 | after a move the length is unchanged, the arrow cell is `ARROW`, the end cell holds the original start value unless the arrow overwrote it, the start cell is `EMPTY` unless a later write hit it, and every other cell is unchanged |
| `Moves.ExecuteMove` | game-player-team-00-2021/team-00/src/main/java/ubc/cosc322/QueenActions.java:95-114 | the copy-then-three-writes method yields `AfterMove` of the input at the three encoded indices |
| `Moves.StartReadable` | game-player-team-00-2021/team-00/src/main/java/ubc/cosc322/QueenActions.java:132-151 | the start cell is read (line 151) only once the queen slide succeeded, and then its index must lie inside the list |
| `Moves.ValidMove` | game-player-team-00-2021/team-00/src/main/java/ubc/cosc322/QueenActions.java:132-162 | legality as the code decides it: the end square is among the queen moves from the start, and the arrow square is among the arrow shots from the end on the board with the queen moved and no arrow placed |
| `Moves.IsValidMove` | game-player-team-00-2021/team-00/src/main/java/ubc/cosc322/QueenActions.java:128-163 | the two flag loops return true iff the end square is among the queen moves from the start and the arrow square is among the arrow shots from the end on the simulated board |
| `Moves.Contains` | game-player-team-00-2021/team-00/src/main/java/ubc/cosc322/QueenActions.java:134-139 | the search loop over a move list finds the asked square iff it is in the list (both directions) |
| `Moves.QueenSlideRequired` | game-player-team-00-2021/team-00/src/main/java/ubc/cosc322/QueenActions.java:132-144 | when the queen slide fails, the move is illegal whatever the arrow square |
| `Moves.ZeroLengthShotInvalid` | game-player-team-00-2021/team-00/src/main/java/ubc/cosc322/QueenActions.java:155-162 | a move whose arrow square equals its end square is never legal |
| `Moves.VacatedSquareIsOpen` | game-player-team-00-2021/team-00/src/main/java/ubc/cosc322/QueenActions.java:146-156 | when the start square is in play (rows and columns 1..`PLAY_MAX`), its index lies in the list and the end square is a queen move, the end index lies in the list too and on the simulated board the vacated square is open, so the arrow may pass through or land on it |
| `Moves.VacatedEdgeSquareUnreachable` | game-player-team-00-2021/team-00/src/main/java/ubc/cosc322/QueenActions.java:53 | when the start square is not in play (row or column 0 or 10; the doc comments describe 1..10 as playable, so only row and column 10 go against them), a move whose arrow lands back on it is never legal, because arrow shots only reach squares in 1..9 |
| `Moves.EdgeQueenExample` | game-player-team-00-2021/team-00/src/main/java/ubc/cosc322/QueenActions.java:53 | on a 121-cell board empty except under a queen at (10, 5), the queen may move to (9, 5), but not with its arrow back on (10, 5) |
| `Moves.ValidMoveEffects` | game-player-team-00-2021/team-00/src/main/java/ubc/cosc322/QueenActions.java:95-163 | for a legal move all three indices lie in the list, start differs from end and end differs from arrow; applying it puts the piece on the end cell, `ARROW` on the arrow cell, `EMPTY` on the start cell unless the arrow landed there, and leaves every other cell alone |
| `Pieces.QueenType` | game-player-team-00-2021/team-00/src/main/java/ubc/cosc322/QueenActions.java:174 | `isWhite ? WHITE_QUEEN : BLACK_QUEEN`: the cell value is one of the two queens, and it is `WHITE_QUEEN` exactly when white is asked for |
| `Pieces.GetQueenPositions` | game-player-team-00-2021/team-00/src/main/java/ubc/cosc322/QueenActions.java:172-185 | the index loop returns exactly `QueenPositions`, the decoded matching cells in index order |
| `Pieces.PositionsUpTo` | game-player-team-00-2021/team-00/src/main/java/ubc/cosc322/QueenActions.java:175-181 | the list after the first n iterations of the index loop: `indexToRC(i)` for every matching i < n, null entries included; characterised by `PositionsDecodeIndices` |
| `Pieces.QueenPositions` | game-player-team-00-2021/team-00/src/main/java/ubc/cosc322/QueenActions.java:172-185 | the list `getQueenPositions` returns, the whole scan; characterised by `QueenPositionsSpec` |
| `Pieces.IndicesOfSound` | game-player-team-00-2021/team-00/src/main/java/ubc/cosc322/QueenActions.java:175-176 | the matching indices below n are each below n, each holds the piece, and they strictly increase |
| `Pieces.IndicesOfComplete` | game-player-team-00-2021/team-00/src/main/java/ubc/cosc322/QueenActions.java:175-176 | every index below n whose cell holds the piece is listed |
| `Pieces.IndicesOfCount` | game-player-team-00-2021/team-00/src/main/java/ubc/cosc322/QueenActions.java:175-176 | the number of listed indices equals the count of the piece among the first n cells |
| `Pieces.PositionsDecodeIndices` | game-player-team-00-2021/team-00/src/main/java/ubc/cosc322/QueenActions.java:175-181 | the k-th collected position is `indexToRC` of the k-th matching index |
| `Pieces.QueenPositionsSpec` | game-player-team-00-2021/team-00/src/main/java/ubc/cosc322/QueenActions.java:172-185 | the result lists `indexToRC(i)` for exactly the cells equal to the asked colour's queen, in increasing index order; its length is their count; an entry is null iff its index is >= 121, and otherwise re-encodes to its index |

## Left out

- `printBoard` writes to standard output only. It is diagnostic I/O and is not modelled.
- `COSC322Test.java` (networking, GUI, login, console output) is not part of this model. Its `verifyQueenActions` calls `getQueenPositions`, `getQueenMoves`, `executeMove` (with the arrow on the end square), `getArrowShots` and `isValidMove`, which the model already covers; the caller adds no behaviour of its own beyond printing.
- `Moves.ExecuteMove`: Java's `IndexOutOfBoundsException` from `get`/`set` is not modelled. Instead, the method requires the three indices to lie inside the list.
- `Moves.IsValidMove`: the same exception, on reading the start cell, is not modelled. Instead, the method requires the start index to lie inside the list whenever the queen slide succeeds, which is the only time the code reads it. The end index is then inside the list automatically.
- `Coordinates.RcToIndex`: does not model 32-bit overflow of `row * 11 + col`. The slide calls it only on squares in 1..9, where no overflow occurs. The self-test calls in `COSC322Test.java` (`verifyQueenActions`) pass only squares that come from decoded indices or from slides, so they stay in 0..10. But the opponent-move handler passes the server's coordinates to `executeMove` with no range check, so there an overflow is possible in Java and is not modelled. In `getQueenMoves`, overflow of `r += dir[0]` could only happen past the bound check, where it stops the slide just as the unbounded value does.
- Board cells are `int`. A `null` element of the Java `ArrayList<Integer>`, and the unboxing exception it would raise, are not modelled.
- Row and column 10 are addressable but never in play: a queen standing there can move (`OriginNearBoard` admits 0..10) yet its arrow can never land on the square it left (`VacatedEdgeSquareUnreachable`, `EdgeQueenExample`).
- `Slides.CentreDownRay`: the bound is exhibited on the downward ray only; the full 32-move list of a lone centre queen follows from the same reasoning in each direction but is not stated as a lemma.
- Piece counts (such as four queens per colour) are not checked by the code and are not part of the model.
