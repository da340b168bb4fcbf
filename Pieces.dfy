/** Locating the queens of one colour: a scan of the board list in index order. */
module Pieces {
  import opened Coordinates
  import opened Slides

  /** The cell value of a queen of the asked colour. */
  function QueenType(isWhite: bool): (piece: int)
    ensures piece == WHITE_QUEEN || piece == BLACK_QUEEN
    ensures piece == WHITE_QUEEN <==> isWhite
  {
    if isWhite then WHITE_QUEEN else BLACK_QUEEN
  }

  /** The indices below n whose cell holds `piece`, in increasing order. */
  function IndicesOf(s: Board, piece: int, n: nat): seq<nat>
    requires n <= |s|
  {
    if n == 0 then [] else IndicesOf(s, piece, n - 1) + (if s[n - 1] == piece then [n - 1] else [])
  }

  /** The positions the scan has collected after looking at the first n cells. */
  function PositionsUpTo(s: Board, piece: int, n: nat): seq<Option<Pos>>
    requires n <= |s|
  {
    if n == 0 then [] else PositionsUpTo(s, piece, n - 1) + (if s[n - 1] == piece then [IndexToRC(n - 1)] else [])
  }

  /** What getQueenPositions returns. */
  function QueenPositions(s: Board, isWhite: bool): seq<Option<Pos>>
  {
    PositionsUpTo(s, QueenType(isWhite), |s|)
  }

  /** getQueenPositions: scans the cells in index order and decodes each match. */
  method GetQueenPositions(s: Board, isWhite: bool) returns (positions: seq<Option<Pos>>)
    ensures positions == QueenPositions(s, isWhite)
  {
    positions := [];
    var queenType := if isWhite then WHITE_QUEEN else BLACK_QUEEN;
    for i := 0 to |s|
      invariant positions == PositionsUpTo(s, queenType, i)
    {
      if i < |s| && s[i] == queenType {
        var pos := IndexToRC(i);
        positions := positions + [pos];
      }
    }
  }

  // ---------------------------------------------------------------------------
  // Properties

  /** Every listed index is below n and holds `piece`, and the list strictly increases. */
  lemma {:induction false} IndicesOfSound(s: Board, piece: int, n: nat)
    requires n <= |s|
    ensures forall j :: 0 <= j < |IndicesOf(s, piece, n)| ==>
      IndicesOf(s, piece, n)[j] < n && s[IndicesOf(s, piece, n)[j]] == piece
    ensures forall j, k :: 0 <= j < k < |IndicesOf(s, piece, n)| ==>
      IndicesOf(s, piece, n)[j] < IndicesOf(s, piece, n)[k]
  {
    if n > 0 {
      IndicesOfSound(s, piece, n - 1);
    }
  }

  /** Every index below n that holds `piece` is listed. */
  lemma {:induction false} IndicesOfComplete(s: Board, piece: int, n: nat)
    requires n <= |s|
    ensures forall i :: 0 <= i < n && s[i] == piece ==> i in IndicesOf(s, piece, n)
  {
    if n > 0 {
      IndicesOfComplete(s, piece, n - 1);
    }
  }

  /** As many indices are listed as the first n cells hold `piece`. */
  lemma {:induction false} IndicesOfCount(s: Board, piece: int, n: nat)
    requires n <= |s|
    ensures |IndicesOf(s, piece, n)| == multiset(s[..n])[piece]
  {
    if n > 0 {
      IndicesOfCount(s, piece, n - 1);
      assert s[..n] == s[..n - 1] + [s[n - 1]];
      assert multiset(s[..n]) == multiset(s[..n - 1]) + multiset{s[n - 1]};
    }
  }

  /** The scan decodes each matching index, in order. */
  lemma {:induction false} PositionsDecodeIndices(s: Board, piece: int, n: nat)
    requires n <= |s|
    ensures |PositionsUpTo(s, piece, n)| == |IndicesOf(s, piece, n)|
    ensures forall k :: 0 <= k < |PositionsUpTo(s, piece, n)| ==>
      PositionsUpTo(s, piece, n)[k] == IndexToRC(IndicesOf(s, piece, n)[k])
  {
    if n > 0 {
      PositionsDecodeIndices(s, piece, n - 1);
    }
  }

  /** getQueenPositions returns, in strictly increasing index order, the
      decoded position of exactly the cells holding the asked queen; its length
      is their count; an entry is None (Java's null) exactly when its index is
      121 or more, and otherwise names the square stored at that index. */
  lemma QueenPositionsSpec(s: Board, isWhite: bool)
    ensures var idx := IndicesOf(s, QueenType(isWhite), |s|);
      var r := QueenPositions(s, isWhite);
      |r| == |idx| == multiset(s)[QueenType(isWhite)] &&
      (forall j :: 0 <= j < |idx| ==> idx[j] < |s| && s[idx[j]] == QueenType(isWhite)) &&
      (forall i :: 0 <= i < |s| && s[i] == QueenType(isWhite) ==> i in idx) &&
      (forall j, k :: 0 <= j < k < |idx| ==> idx[j] < idx[k]) &&
      (forall k :: 0 <= k < |r| ==> r[k] == IndexToRC(idx[k])) &&
      (forall k :: 0 <= k < |r| ==> (r[k].None? <==> STRIDE * STRIDE <= idx[k])) &&
      (forall k :: 0 <= k < |r| && r[k].Some? ==> RcToIndex(r[k].value.row, r[k].value.col) == idx[k])
  {
    var q := QueenType(isWhite);
    IndicesOfSound(s, q, |s|);
    IndicesOfComplete(s, q, |s|);
    IndicesOfCount(s, q, |s|);
    PositionsDecodeIndices(s, q, |s|);
    assert s[..|s|] == s;
  }
}
