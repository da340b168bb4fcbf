/** Applying and validating a full Amazons move: a queen slides from the start
    square to the end square, then fires an arrow from the end square. */
module Moves {
  import opened Coordinates
  import opened Slides

  /** The board after the queen at index si has moved to index ei, before the
      arrow lands: the copy the validator shoots the arrow on. */
  function Simulated(s: Board, si: int, ei: int): (t: Board)
    requires 0 <= si < |s| && 0 <= ei < |s|
    ensures |t| == |s|
    ensures t[ei] == s[si]
    ensures si != ei ==> t[si] == EMPTY
    ensures forall i :: 0 <= i < |s| && i != si && i != ei ==> t[i] == s[i]
  {
    s[si := EMPTY][ei := s[si]]
  }

  /** The board after the whole move: the three writes of executeMove, in the
      order start, end, arrow, so that a later write wins where indices coincide. */
  function AfterMove(s: Board, si: int, ei: int, ai: int): (t: Board)
    requires 0 <= si < |s| && 0 <= ei < |s| && 0 <= ai < |s|
    ensures |t| == |s|
    ensures t[ai] == ARROW
    ensures ei != ai ==> t[ei] == s[si]
    ensures si != ei && si != ai ==> t[si] == EMPTY
    ensures forall i :: 0 <= i < |s| && i != si && i != ei && i != ai ==> t[i] == s[i]
  {
    Simulated(s, si, ei)[ai := ARROW]
  }

  /** executeMove: copies the list and writes the three cells; the input is a
      value and so stays as it was. */
  method ExecuteMove(s: Board, startRow: int, startCol: int, endRow: int, endCol: int,
                     arrowRow: int, arrowCol: int) returns (newState: Board)
    requires 0 <= RcToIndex(startRow, startCol) < |s|
    requires 0 <= RcToIndex(endRow, endCol) < |s|
    requires 0 <= RcToIndex(arrowRow, arrowCol) < |s|
    ensures newState == AfterMove(s, RcToIndex(startRow, startCol), RcToIndex(endRow, endCol),
                                  RcToIndex(arrowRow, arrowCol))
  {
    newState := s;
    var startIndex := RcToIndex(startRow, startCol);
    var endIndex := RcToIndex(endRow, endCol);
    var arrowIndex := RcToIndex(arrowRow, arrowCol);
    var queenType := newState[startIndex];
    newState := newState[startIndex := EMPTY];
    newState := newState[endIndex := queenType];
    newState := newState[arrowIndex := ARROW];
  }

  /** What isValidMove needs of its caller: the start cell is read only after
      the queen slide succeeded, and then it must lie inside the list. */
  predicate StartReadable(s: Board, startRow: int, startCol: int, endRow: int, endCol: int)
  {
    Pos(endRow, endCol) in QueenMoves(s, startRow, startCol) ==> 0 <= RcToIndex(startRow, startCol) < |s|
  }

  /** The legality isValidMove decides: the end square is a queen move from the
      start square, and the arrow square is an arrow shot from the end square on
      the board where the queen has moved and no arrow is placed yet. */
  predicate ValidMove(s: Board, startRow: int, startCol: int, endRow: int, endCol: int,
                      arrowRow: int, arrowCol: int)
    requires StartReadable(s, startRow, startCol, endRow, endCol)
  {
    Pos(endRow, endCol) in QueenMoves(s, startRow, startCol) &&
    (QueenMovesValid(s, startRow, startCol);
     var t := Simulated(s, RcToIndex(startRow, startCol), RcToIndex(endRow, endCol));
     Pos(arrowRow, arrowCol) in QueenMoves(t, endRow, endCol))
  }

  /** isValidMove: looks the end square up among the queen moves, then the
      arrow square among the arrow shots on the simulated board. */
  method IsValidMove(s: Board, startRow: int, startCol: int, endRow: int, endCol: int,
                     arrowRow: int, arrowCol: int) returns (valid: bool)
    requires StartReadable(s, startRow, startCol, endRow, endCol)
    ensures valid == ValidMove(s, startRow, startCol, endRow, endCol, arrowRow, arrowCol)
  {
    var queenMoves := GetQueenMoves(s, startRow, startCol);
    var validQueenMove := Contains(queenMoves, endRow, endCol);
    if !validQueenMove {
      return false;
    }

    QueenMovesValid(s, startRow, startCol);
    var tempState := s;
    var startIndex := RcToIndex(startRow, startCol);
    var endIndex := RcToIndex(endRow, endCol);
    var queenType := tempState[startIndex];
    tempState := tempState[startIndex := EMPTY];
    tempState := tempState[endIndex := queenType];
    assert tempState == Simulated(s, startIndex, endIndex);

    var arrowMoves := GetArrowShots(tempState, endRow, endCol);
    valid := Contains(arrowMoves, arrowRow, arrowCol);
  }

  /** The linear search isValidMove runs over a move list, comparing row and
      column of each entry with the asked square. */
  method Contains(moves: seq<Pos>, row: int, col: int) returns (found: bool)
    ensures found <==> Pos(row, col) in moves
  {
    for i := 0 to |moves|
      invariant Pos(row, col) !in moves[..i]
    {
      if moves[i].row == row && moves[i].col == col {
        return true;
      }
    }
    assert moves[..|moves|] == moves;
    return false;
  }

  // ---------------------------------------------------------------------------
  // Properties

  /** Legality needs the queen slide: if the end square is not a queen move,
      the move is illegal whatever the arrow square. */
  lemma QueenSlideRequired(s: Board, startRow: int, startCol: int, endRow: int, endCol: int,
                           arrowRow: int, arrowCol: int)
    requires Pos(endRow, endCol) !in QueenMoves(s, startRow, startCol)
    ensures !ValidMove(s, startRow, startCol, endRow, endCol, arrowRow, arrowCol)
  {
  }

  /** A zero-length shot is illegal: the arrow never lands on the square it is fired from. */
  lemma ZeroLengthShotInvalid(s: Board, startRow: int, startCol: int, endRow: int, endCol: int)
    requires StartReadable(s, startRow, startCol, endRow, endCol)
    ensures !ValidMove(s, startRow, startCol, endRow, endCol, endRow, endCol)
  {
    if Pos(endRow, endCol) in QueenMoves(s, startRow, startCol) {
      QueenMovesValid(s, startRow, startCol);
      var t := Simulated(s, RcToIndex(startRow, startCol), RcToIndex(endRow, endCol));
      QueenMovesValid(t, endRow, endCol);
    }
  }

  /** The arrow may fly through the square the queen just left: on the
      simulated board that square is EMPTY. */
  lemma VacatedSquareIsOpen(s: Board, startRow: int, startCol: int, endRow: int, endCol: int)
    requires Pos(endRow, endCol) in QueenMoves(s, startRow, startCol)
    requires 0 <= RcToIndex(startRow, startCol) < |s|
    requires InPlay(startRow, startCol)
    ensures 0 <= RcToIndex(endRow, endCol) < |s| &&
      Open(Simulated(s, RcToIndex(startRow, startCol), RcToIndex(endRow, endCol)), Pos(startRow, startCol))
  {
    QueenMovesValid(s, startRow, startCol);
  }

  /** A queen standing outside the bound (row or column 0 or 10) may still
      move, but its arrow can never land on the square it left: arrow shots
      only reach squares in PLAY_MIN..PLAY_MAX. */
  lemma VacatedEdgeSquareUnreachable(s: Board, startRow: int, startCol: int, endRow: int, endCol: int)
    requires StartReadable(s, startRow, startCol, endRow, endCol)
    requires !InPlay(startRow, startCol)
    ensures !ValidMove(s, startRow, startCol, endRow, endCol, startRow, startCol)
  {
    if Pos(endRow, endCol) in QueenMoves(s, startRow, startCol) {
      QueenMovesValid(s, startRow, startCol);
      var t := Simulated(s, RcToIndex(startRow, startCol), RcToIndex(endRow, endCol));
      QueenMovesValid(t, endRow, endCol);
    }
  }

  /** On a 121-cell board empty except under a queen at (10, 5), the queen may
      move up to (9, 5), but the move with its arrow back on (10, 5) is illegal. */
  lemma EdgeQueenExample(s: Board)
    requires |s| == 121 && forall i :: 0 <= i < 121 && i != 115 ==> s[i] == EMPTY
    ensures Pos(9, 5) in QueenMoves(s, 10, 5)
    ensures !ValidMove(s, 10, 5, 9, 5, 10, 5)
  {
    var o := Pos(10, 5);
    assert Open(s, Pos(9, 5));
    assert Ray(s, o, Up)[0] == Pos(9, 5);
    RaysCover(s, o, |DIRECTIONS|, 0, Pos(9, 5));
    VacatedEdgeSquareUnreachable(s, 10, 5, 9, 5);
  }

  /** Applying a legal move does what the move says: the start, end and arrow
      squares are distinct from each other except that the arrow may land on
      the vacated start square; the piece from the start square stands on the
      end square; the arrow square is ARROW; the start square is EMPTY unless
      the arrow landed there; every other cell is as before. */
  lemma ValidMoveEffects(s: Board, startRow: int, startCol: int, endRow: int, endCol: int,
                         arrowRow: int, arrowCol: int)
    requires StartReadable(s, startRow, startCol, endRow, endCol)
    requires ValidMove(s, startRow, startCol, endRow, endCol, arrowRow, arrowCol)
    ensures var si, ei, ai := RcToIndex(startRow, startCol), RcToIndex(endRow, endCol), RcToIndex(arrowRow, arrowCol);
      0 <= si < |s| && 0 <= ei < |s| && 0 <= ai < |s| && si != ei && ei != ai &&
      var t := AfterMove(s, si, ei, ai);
      t[ei] == s[si] && t[ai] == ARROW && (ai != si ==> t[si] == EMPTY) &&
      forall i :: 0 <= i < |s| && i != si && i != ei && i != ai ==> t[i] == s[i]
  {
    var si, ei := RcToIndex(startRow, startCol), RcToIndex(endRow, endCol);
    QueenMovesValid(s, startRow, startCol);
    OriginNearBoard(s, startRow, startCol);
    var t := Simulated(s, si, ei);
    QueenMovesValid(t, endRow, endCol);
    if si == ei {
      RcToIndexInjective(startRow, startCol, endRow, endCol);
    }
    if ei == RcToIndex(arrowRow, arrowCol) {
      RcToIndexInjective(arrowRow, arrowCol, endRow, endCol);
    }
  }
}
