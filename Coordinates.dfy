/** Coordinates of the Amazons engine: a square is a (row, col) pair and the
    board list stores it at the flat index row * 11 + col. Division and
    remainder are Java's, which truncate toward zero. */
module Coordinates {

  /** Side of the board as the engine declares it (BOARD_SIZE). */
  const BOARD_SIZE: int := 10

  /** Cells per stored row: rows and columns 0..10 are addressable. */
  const STRIDE: int := 11

  datatype Option<+T> = None | Some(value: T)

  /** A square; the engine passes these around as `int[] {row, col}`. */
  datatype Pos = Pos(row: int, col: int)

  /** Java's `index / 11`: the quotient truncated toward zero. */
  function JavaRow(index: int): (row: int)
    ensures 0 <= index ==> row * STRIDE <= index < row * STRIDE + STRIDE
    ensures index < 0 ==> row * STRIDE - STRIDE < index <= row * STRIDE
  {
    if index >= 0 then index / STRIDE else -((-index) / STRIDE)
  }

  /** Java's `index % 11`: the remainder takes the sign of the index. */
  function JavaCol(index: int): (col: int)
    ensures JavaRow(index) * STRIDE + col == index
    ensures 0 <= index ==> 0 <= col < STRIDE
    ensures index < 0 ==> -STRIDE < col <= 0
  {
    if index >= 0 then index % STRIDE else -((-index) % STRIDE)
  }

  /** rcToIndex: the flat index of square (row, col). */
  function RcToIndex(row: int, col: int): (index: int)
    ensures 0 <= row && 0 <= col ==> 0 <= index
  {
    row * STRIDE + col
  }

  /** Dividing the index of a square whose column is in 0..10 gives back its
      row and column. */
  lemma RcToIndexDecodes(row: int, col: int)
    requires 0 <= row && 0 <= col < STRIDE
    ensures JavaRow(RcToIndex(row, col)) == row && JavaCol(RcToIndex(row, col)) == col
  {
  }

  /** indexToRC: the square stored at `index`, or None (Java's null) when the
      derived row is 11 or more or the derived column is negative. */
  function IndexToRC(index: int): (r: Option<Pos>)
    ensures r.Some? ==> RcToIndex(r.value.row, r.value.col) == index
    ensures r.Some? ==> r.value.row < STRIDE && 0 <= r.value.col < STRIDE
    ensures 0 <= index ==> (r.None? <==> STRIDE * STRIDE <= index)
    ensures 0 <= index && r.Some? ==> r.value == Pos(index / STRIDE, index % STRIDE) && 0 <= r.value.row
  {
    var row := JavaRow(index);
    var col := JavaCol(index);
    if row >= STRIDE || col < 0 then None else Some(Pos(row, col))
  }

  /** Every square with row and column in 0..BOARD_SIZE decodes back to itself,
      and its index lies in 0..120. */
  lemma RoundTrip(row: int, col: int)
    requires 0 <= row <= BOARD_SIZE && 0 <= col <= BOARD_SIZE
    ensures 0 <= RcToIndex(row, col) < STRIDE * STRIDE
    ensures IndexToRC(RcToIndex(row, col)) == Some(Pos(row, col))
  {
  }

  /** On that square region the index mapping is injective. */
  lemma RcToIndexInjective(r1: int, c1: int, r2: int, c2: int)
    requires 0 <= r1 && 0 <= c1 < STRIDE && 0 <= r2 && 0 <= c2 < STRIDE
    requires RcToIndex(r1, c1) == RcToIndex(r2, c2)
    ensures r1 == r2 && c1 == c2
  {
  }

  /** Decoding an index past the region fails: 132 gives row 12. */
  lemma DecodeOutOfRange()
    ensures IndexToRC(121) == None && IndexToRC(132) == None
    ensures IndexToRC(120) == Some(Pos(10, 10))
  {
  }

  /** The null check is asymmetric on negative indices: -1 decodes to column
      -1 and fails, but -11 decodes to row -1, column 0 and succeeds. */
  lemma DecodeNegative()
    ensures IndexToRC(-1) == None
    ensures IndexToRC(-11) == Some(Pos(-1, 0))
  {
  }
}
