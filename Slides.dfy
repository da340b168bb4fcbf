/** Sliding-move generation: a queen (or an arrow) travels along one of eight
    straight lines and stops in front of the board edge or the first cell that
    is not EMPTY. */
module Slides {
  import opened Coordinates

  /** Cell values of the board list. */
  const EMPTY: int := 0
  const WHITE_QUEEN: int := 1
  const BLACK_QUEEN: int := 2
  const ARROW: int := 3

  /** The playable rows and columns as the slide checks them: PLAY_MIN..PLAY_MAX.
      The upper bound is 9, one short of BOARD_SIZE, exactly as the engine writes it. */
  const PLAY_MIN: int := 1
  const PLAY_MAX: int := 9

  /** A board snapshot: one integer per flat cell index. */
  type Board = seq<int>

  /** The eight queen directions. */
  datatype Dir = Up | Down | Left | Right | UpLeft | UpRight | DownLeft | DownRight
  {
    function DeltaRow(): int
    {
      match this
      case Up | UpLeft | UpRight => -1
      case Down | DownLeft | DownRight => 1
      case Left | Right => 0
    }

    function DeltaCol(): int
    {
      match this
      case Left | UpLeft | DownLeft => -1
      case Right | UpRight | DownRight => 1
      case Up | Down => 0
    }
  }

  /** DIRECTIONS, in the order the generator tries them. */
  const DIRECTIONS: seq<Dir> := [Up, Down, Left, Right, UpLeft, UpRight, DownLeft, DownRight]

  /** DIRECTIONS[i], by cases. */
  function DirAt(i: nat): (d: Dir)
    requires i < |DIRECTIONS|
    ensures d == DIRECTIONS[i]
  {
    match i
    case 0 => Up case 1 => Down case 2 => Left case 3 => Right
    case 4 => UpLeft case 5 => UpRight case 6 => DownLeft case _ => DownRight
  }

  /** DIRECTIONS holds each of the eight unit steps (row and column change in
      -1..1, not both 0) exactly once. */
  lemma DirectionsAreUnitSteps()
    ensures forall i :: 0 <= i < |DIRECTIONS| ==>
      -1 <= DirAt(i).DeltaRow() <= 1 && -1 <= DirAt(i).DeltaCol() <= 1 &&
      (DirAt(i).DeltaRow(), DirAt(i).DeltaCol()) != (0, 0)
    ensures forall i, j :: 0 <= i < j < |DIRECTIONS| ==>
      (DirAt(i).DeltaRow(), DirAt(i).DeltaCol()) != (DirAt(j).DeltaRow(), DirAt(j).DeltaCol())
    ensures forall d: Dir :: d in DIRECTIONS
  {
    forall d: Dir
      ensures d in DIRECTIONS
    {
      var i := match d
        case Up => 0 case Down => 1 case Left => 2 case Right => 3
        case UpLeft => 4 case UpRight => 5 case DownLeft => 6 case DownRight => 7;
      assert DIRECTIONS[i] == d;
    }
  }

  /** The slide's bounds check, negated: `r < 1 || r > 9 || c < 1 || c > 9` is false. */
  function InPlay(row: int, col: int): (b: bool)
    ensures b <==> PLAY_MIN <= row <= PLAY_MAX && PLAY_MIN <= col <= PLAY_MAX
  {
    !(row < PLAY_MIN || row > PLAY_MAX || col < PLAY_MIN || col > PLAY_MAX)
  }

  /** A slide may enter square p: it is in play, its index is inside the list and its cell is EMPTY. */
  function Open(s: Board, p: Pos): (b: bool)
    ensures b ==> 0 <= RcToIndex(p.row, p.col) < |s| && s[RcToIndex(p.row, p.col)] == EMPTY
  {
    InPlay(p.row, p.col) && RcToIndex(p.row, p.col) < |s| && s[RcToIndex(p.row, p.col)] == EMPTY
  }

  /** The square one step from p in direction d. */
  function Next(p: Pos, d: Dir): Pos
  {
    Pos(p.row + d.DeltaRow(), p.col + d.DeltaCol())
  }

  /** The square k steps from p in direction d. */
  function Walk(p: Pos, d: Dir, k: nat): Pos
    decreases k
  {
    if k == 0 then p else Walk(Next(p, d), d, k - 1)
  }

  /** How far p is along direction d (a coordinate that grows by one per step). */
  function Progress(p: Pos, d: Dir): int
  {
    match d
    case Up | UpLeft | UpRight => -p.row
    case Down | DownLeft | DownRight => p.row
    case Left => -p.col
    case Right => p.col
  }

  /** The largest Progress an in-play square can have along d. */
  function Limit(d: Dir): int
  {
    match d
    case Down | DownLeft | DownRight | Right => PLAY_MAX
    case _ => -PLAY_MIN
  }

  /** An upper bound on the steps a slide from p along d can still take. */
  function Remaining(p: Pos, d: Dir): nat
  {
    if Progress(p, d) < Limit(d) then Limit(d) - Progress(p, d) else 0
  }

  /** The squares a slide from p along d emits, nearest first. */
  function Ray(s: Board, p: Pos, d: Dir): seq<Pos>
    decreases Remaining(p, d)
  {
    var q := Next(p, d);
    if Open(s, q) then [q] + Ray(s, q, d) else []
  }

  /** The rays of the first n directions, concatenated in DIRECTIONS order. */
  function Rays(s: Board, p: Pos, n: nat): seq<Pos>
    requires n <= |DIRECTIONS|
  {
    if n == 0 then [] else Rays(s, p, n - 1) + Ray(s, p, DirAt(n - 1))
  }

  /** What getQueenMoves returns for the piece at (row, col). */
  function QueenMoves(s: Board, row: int, col: int): seq<Pos>
  {
    Rays(s, Pos(row, col), |DIRECTIONS|)
  }

  /** Every square on the straight path from p along d up to distance k is open. */
  ghost predicate ClearPath(s: Board, p: Pos, d: Dir, k: nat)
  {
    forall j :: 1 <= j <= k ==> Open(s, Walk(p, d, j))
  }

  /** getQueenMoves: tries the directions in DIRECTIONS order and, in each,
      steps outward and emits squares while the next one is open. */
  method GetQueenMoves(s: Board, row: int, col: int) returns (moves: seq<Pos>)
    ensures moves == QueenMoves(s, row, col)
  {
    moves := [];
    for i := 0 to |DIRECTIONS|
      invariant moves == Rays(s, Pos(row, col), i)
    {
      moves := Slide(s, row, col, DIRECTIONS[i], moves);
    }
  }

  /** The inner `while (true)` loop of getQueenMoves: appends to `moves` the
      squares of one direction, nearest first. */
  method Slide(s: Board, row: int, col: int, dir: Dir, moves0: seq<Pos>) returns (moves: seq<Pos>)
    ensures moves == moves0 + Ray(s, Pos(row, col), dir)
  {
    moves := moves0;
    var r, c := row, col;
    while true
      invariant moves + Ray(s, Pos(r, c), dir) == moves0 + Ray(s, Pos(row, col), dir)
      decreases Remaining(Pos(r, c), dir)
    {
      ghost var here := Pos(r, c);
      r := r + dir.DeltaRow();
      c := c + dir.DeltaCol();
      assert Pos(r, c) == Next(here, dir);
      assert Ray(s, here, dir) == if Open(s, Pos(r, c)) then [Pos(r, c)] + Ray(s, Pos(r, c), dir) else [];
      if r < PLAY_MIN || r > PLAY_MAX || c < PLAY_MIN || c > PLAY_MAX {
        assert !Open(s, Pos(r, c));
        break;
      }
      var index := RcToIndex(r, c);
      if index < |s| && s[index] == EMPTY {
        assert Open(s, Pos(r, c));
        moves := moves + [Pos(r, c)];
      } else {
        assert !Open(s, Pos(r, c));
        break;
      }
    }
  }

  /** getArrowShots: an arrow flies exactly like a queen slides. */
  method GetArrowShots(s: Board, row: int, col: int) returns (shots: seq<Pos>)
    ensures shots == QueenMoves(s, row, col)
  {
    shots := GetQueenMoves(s, row, col);
  }

  // ---------------------------------------------------------------------------
  // Properties of a single ray

  /** Each step adds exactly one to the progress along d. */
  lemma {:induction false} WalkProgress(p: Pos, d: Dir, k: nat)
    ensures Progress(Walk(p, d, k), d) == Progress(p, d) + k
    decreases k
  {
    if k > 0 {
      WalkProgress(Next(p, d), d, k - 1);
    }
  }

  /** Squares at different distances along one direction are different squares. */
  lemma WalkInjective(p: Pos, d: Dir, j: nat, k: nat)
    requires j != k
    ensures Walk(p, d, j) != Walk(p, d, k)
  {
    WalkProgress(p, d, j);
    WalkProgress(p, d, k);
  }

  /** The k-th square of a ray is the open square at distance k. */
  lemma {:induction false} RaySquare(s: Board, p: Pos, d: Dir, k: nat)
    requires 1 <= k <= |Ray(s, p, d)|
    ensures Ray(s, p, d)[k - 1] == Walk(p, d, k) && Open(s, Walk(p, d, k))
    decreases k
  {
    var q := Next(p, d);
    var rest := Ray(s, q, d);
    assert Open(s, q) && Ray(s, p, d) == [q] + rest;
    if k == 1 {
      assert Walk(p, d, 1) == q;
    } else {
      RaySquare(s, q, d, k - 1);
      assert Ray(s, p, d)[k - 1] == rest[k - 2];
      assert Walk(p, d, k) == Walk(q, d, k - 1);
    }
  }

  /** The square just past a ray is not open: the slide stopped there. */
  lemma {:induction false} RayStop(s: Board, p: Pos, d: Dir)
    ensures !Open(s, Walk(p, d, |Ray(s, p, d)| + 1))
    decreases Remaining(p, d)
  {
    var q := Next(p, d);
    if Open(s, q) {
      assert Ray(s, p, d) == [q] + Ray(s, q, d);
      RayStop(s, q, d);
      assert Walk(p, d, |Ray(s, p, d)| + 1) == Walk(q, d, |Ray(s, q, d)| + 1);
    } else {
      assert Ray(s, p, d) == [];
      assert Walk(p, d, 1) == q;
    }
  }

  /** The ray is the open squares at distances 1, 2, ..., n in that order, and
      the square at distance n + 1 (the stop) is not open. */
  lemma RayWalk(s: Board, p: Pos, d: Dir)
    ensures forall k :: 1 <= k <= |Ray(s, p, d)| ==>
      Ray(s, p, d)[k - 1] == Walk(p, d, k) && Open(s, Walk(p, d, k))
    ensures !Open(s, Walk(p, d, |Ray(s, p, d)| + 1))
  {
    forall k | 1 <= k <= |Ray(s, p, d)|
      ensures Ray(s, p, d)[k - 1] == Walk(p, d, k) && Open(s, Walk(p, d, k))
    {
      RaySquare(s, p, d, k);
    }
    RayStop(s, p, d);
  }

  /** Blocking: scanning stops at the first square that is out of play, past
      the end of the list or not EMPTY; that square and every square beyond it
      are never emitted, and every square before it is. */
  lemma RayBlocking(s: Board, p: Pos, d: Dir)
    ensures ClearPath(s, p, d, |Ray(s, p, d)|)
    ensures !Open(s, Walk(p, d, |Ray(s, p, d)| + 1))
    ensures forall k :: 1 <= k <= |Ray(s, p, d)| ==> Walk(p, d, k) in Ray(s, p, d)
    ensures forall k :: k > |Ray(s, p, d)| ==> Walk(p, d, k) !in Ray(s, p, d)
  {
    RayWalk(s, p, d);
    var ray := Ray(s, p, d);
    forall k | k > |ray|
      ensures Walk(p, d, k) !in ray
    {
      forall j | 0 <= j < |ray|
        ensures ray[j] != Walk(p, d, k)
      {
        WalkInjective(p, d, j + 1, k);
      }
    }
  }

  /** Reference definition of a slide: q is emitted along d exactly when it is
      some distance k >= 1 from p and the whole path up to it is open. */
  lemma RayMembership(s: Board, p: Pos, d: Dir, q: Pos)
    ensures q in Ray(s, p, d) <==> exists k: nat :: 1 <= k && q == Walk(p, d, k) && ClearPath(s, p, d, k)
  {
    RayWalk(s, p, d);
    var ray := Ray(s, p, d);
    if q in ray {
      var i :| 0 <= i < |ray| && ray[i] == q;
      assert q == Walk(p, d, i + 1) && ClearPath(s, p, d, i + 1);
    }
    if exists k: nat :: 1 <= k && q == Walk(p, d, k) && ClearPath(s, p, d, k) {
      var k: nat :| 1 <= k && q == Walk(p, d, k) && ClearPath(s, p, d, k);
      assert ray[k - 1] == q;
    }
  }

  /** No square of a ray is its origin. */
  lemma RayAvoidsOrigin(s: Board, p: Pos, d: Dir)
    ensures p !in Ray(s, p, d)
  {
    RayWalk(s, p, d);
    var ray := Ray(s, p, d);
    forall j | 0 <= j < |ray|
      ensures ray[j] != p
    {
      WalkProgress(p, d, j + 1);
    }
  }

  // ---------------------------------------------------------------------------
  // Properties of the whole move list

  /** Output order: the moves are the rays grouped by direction in DIRECTIONS order. */
  lemma QueenMovesByDirection(s: Board, row: int, col: int)
    ensures var o := Pos(row, col);
      QueenMoves(s, row, col) ==
        Ray(s, o, Up) + Ray(s, o, Down) + Ray(s, o, Left) + Ray(s, o, Right) +
        Ray(s, o, UpLeft) + Ray(s, o, UpRight) + Ray(s, o, DownLeft) + Ray(s, o, DownRight)
  {
    var o := Pos(row, col);
    assert Rays(s, o, 1) == Ray(s, o, Up);
    assert Rays(s, o, 2) == Rays(s, o, 1) + Ray(s, o, Down);
    assert Rays(s, o, 3) == Rays(s, o, 2) + Ray(s, o, Left);
    assert Rays(s, o, 4) == Rays(s, o, 3) + Ray(s, o, Right);
    assert Rays(s, o, 5) == Rays(s, o, 4) + Ray(s, o, UpLeft);
    assert Rays(s, o, 6) == Rays(s, o, 5) + Ray(s, o, UpRight);
    assert Rays(s, o, 7) == Rays(s, o, 6) + Ray(s, o, DownLeft);
    assert Rays(s, o, 8) == Rays(s, o, 7) + Ray(s, o, DownRight);
  }

  /** A square on the ray of one of the first n directions is among the first n rays. */
  lemma {:induction false} RaysCover(s: Board, p: Pos, n: nat, i: nat, q: Pos)
    requires i < n <= |DIRECTIONS| && q in Ray(s, p, DirAt(i))
    ensures q in Rays(s, p, n)
  {
    assert Rays(s, p, n) == Rays(s, p, n - 1) + Ray(s, p, DirAt(n - 1));
    if i < n - 1 {
      RaysCover(s, p, n - 1, i, q);
    }
  }

  /** A square among the first n rays lies on the ray of one of the first n directions. */
  lemma {:induction false} RaysSource(s: Board, p: Pos, n: nat, q: Pos) returns (i: nat)
    requires n <= |DIRECTIONS| && q in Rays(s, p, n)
    ensures i < n && q in Ray(s, p, DirAt(i))
  {
    assert Rays(s, p, n) == Rays(s, p, n - 1) + Ray(s, p, DirAt(n - 1));
    if q in Rays(s, p, n - 1) {
      i := RaysSource(s, p, n - 1, q);
    } else {
      i := n - 1;
    }
  }

  /** Reference definition of a queen move: q is emitted exactly when it lies
      some distance k >= 1 from the origin along one of the eight directions
      and every square on the way, q included, is open. */
  lemma QueenMovesMembership(s: Board, row: int, col: int, q: Pos)
    ensures q in QueenMoves(s, row, col) <==>
      exists d: Dir, k: nat :: 1 <= k && q == Walk(Pos(row, col), d, k) && ClearPath(s, Pos(row, col), d, k)
  {
    var o := Pos(row, col);
    forall d: Dir
      ensures q in Ray(s, o, d) <==> exists k: nat :: 1 <= k && q == Walk(o, d, k) && ClearPath(s, o, d, k)
    {
      RayMembership(s, o, d, q);
    }
    if q in QueenMoves(s, row, col) {
      var i := RaysSource(s, o, |DIRECTIONS|, q);
    }
    if exists d: Dir, k: nat :: 1 <= k && q == Walk(o, d, k) && ClearPath(s, o, d, k) {
      var d: Dir, k: nat :| 1 <= k && q == Walk(o, d, k) && ClearPath(s, o, d, k);
      assert q in Ray(s, o, d);
      var i := match d
        case Up => 0 case Down => 1 case Left => 2 case Right => 3
        case UpLeft => 4 case UpRight => 5 case DownLeft => 6 case DownRight => 7;
      assert DirAt(i) == d;
      RaysCover(s, o, |DIRECTIONS|, i, q);
    }
  }

  /** Emitted squares are valid: rows and columns in PLAY_MIN..PLAY_MAX, index
      inside the list, cell EMPTY, and never the origin itself. */
  lemma QueenMovesValid(s: Board, row: int, col: int)
    ensures forall q :: q in QueenMoves(s, row, col) ==>
      PLAY_MIN <= q.row <= PLAY_MAX && PLAY_MIN <= q.col <= PLAY_MAX &&
      0 <= RcToIndex(q.row, q.col) < |s| && s[RcToIndex(q.row, q.col)] == EMPTY &&
      q != Pos(row, col)
  {
    var o := Pos(row, col);
    forall q | q in QueenMoves(s, row, col)
      ensures Open(s, q) && q != o
    {
      var i := RaysSource(s, o, |DIRECTIONS|, q);
      var d := DirAt(i);
      RayWalk(s, o, d);
      RayAvoidsOrigin(s, o, d);
      var j :| 0 <= j < |Ray(s, o, d)| && Ray(s, o, d)[j] == q;
      assert Open(s, Walk(o, d, j + 1));
    }
  }

  /** A piece with any move at all stands on the addressable region: rows and
      columns 0..BOARD_SIZE, one step around the playable area. */
  lemma OriginNearBoard(s: Board, row: int, col: int)
    requires QueenMoves(s, row, col) != []
    ensures 0 <= row <= BOARD_SIZE && 0 <= col <= BOARD_SIZE
  {
    var o := Pos(row, col);
    var q := QueenMoves(s, row, col)[0];
    var i := RaysSource(s, o, |DIRECTIONS|, q);
    assert Open(s, Next(o, DirAt(i)));
  }

  /** A ray whose first k squares are open and whose next square is not has length k. */
  lemma RayLength(s: Board, p: Pos, d: Dir, k: nat)
    requires ClearPath(s, p, d, k) && !Open(s, Walk(p, d, k + 1))
    ensures |Ray(s, p, d)| == k
  {
    RayWalk(s, p, d);
  }

  /** On a 121-cell board that is EMPTY everywhere except under the queen at
      (5, 5), the downward slide ends at row 9: square (10, 5) is EMPTY and
      inside the list, but the bound at 9 stops the slide in front of it. */
  lemma CentreDownRay(s: Board)
    requires |s| == 121 && forall i :: 0 <= i < 121 && i != 60 ==> s[i] == EMPTY
    ensures s[RcToIndex(10, 5)] == EMPTY
    ensures Ray(s, Pos(5, 5), Down) == [Pos(6, 5), Pos(7, 5), Pos(8, 5), Pos(9, 5)]
  {
  }
}
