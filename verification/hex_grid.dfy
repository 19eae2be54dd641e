/**
 * The static part of the Hex board: cell statuses, players, 32-bit unsigned
 * arithmetic, row-major cell coordinates and the hexagonal adjacency that the
 * HexBoard constructor builds once per board.
 */
module HexGrid {

  /** 2^32: the modulus of the unsigned arithmetic used for coordinates and counters. */
  const TwoTo32: int := 0x1_0000_0000

  /** An `unsigned` value of the source program. */
  type U32 = x: int | 0 <= x < 0x1_0000_0000

  /**
   * Largest board side whose `size * size` still fits the signed `int`
   * counters that loop over the cells, and so also 32 unsigned bits.
   */
  const MaxSize: nat := 46340

  /** Number of cells of a board with side `size`. */
  function Area(size: nat): nat {
    size * size
  }

  /** `main` clamps the requested size to at least 3. */
  predicate ValidSize(size: nat) {
    3 <= size <= MaxSize
  }

  /** Unsigned `x - 1`: zero wraps around to 2^32 - 1. */
  function Pred32(x: U32): (r: U32)
    ensures x > 0 ==> r == x - 1
    ensures x == 0 ==> r == TwoTo32 - 1
  {
    (x - 1) % TwoTo32
  }

  /** Unsigned `x + 1`: 2^32 - 1 wraps around to zero. */
  function Succ32(x: U32): (r: U32)
    ensures x < TwoTo32 - 1 ==> r == x + 1
    ensures x == TwoTo32 - 1 ==> r == 0
  {
    (x + 1) % TwoTo32
  }

  /** A value equal to `d * 2^32 + r` with `0 <= r < 2^32` has remainder `r`. */
  lemma ModUnique(y: int, d: int, r: int)
    requires y == d * TwoTo32 + r && 0 <= r < TwoTo32
    ensures y % TwoTo32 == r
  {
    var d' := y / TwoTo32;
    var r' := y % TwoTo32;
    assert y == d' * TwoTo32 + r';
    assert (d - d') * TwoTo32 == r' - r;
  }

  /** Subtracting a multiple of 2^32 does not change the remainder. */
  lemma ModMinusMultiple(x: int, q: int)
    ensures (x - q * TwoTo32) % TwoTo32 == x % TwoTo32
  {
    var r := x % TwoTo32;
    var p := x / TwoTo32;
    assert x == p * TwoTo32 + r;
    assert x - q * TwoTo32 == (p - q) * TwoTo32 + r;
    ModUnique(x - q * TwoTo32, p - q, r);
  }

  /** Counting down `n` more after an unsigned decrement is counting down `n + 1`. */
  lemma Pred32Shift(x: U32, n: int)
    ensures (Pred32(x) - n) % TwoTo32 == (x - (n + 1)) % TwoTo32
  {
    var q := (x - 1) / TwoTo32;
    assert (x - 1) % TwoTo32 == (x - 1) - q * TwoTo32;
    ModMinusMultiple(x - 1 - n, q);
  }

  /** The status of one hexagon. */
  datatype Status = Empty | Blue | Red

  /** The two players. Blue connects the first and the last row, Red the first and the last column. */
  datatype Player = BluePlayer | RedPlayer {
    function Opponent(): Player {
      if this == BluePlayer then RedPlayer else BluePlayer
    }
  }

  /** The colour a player's stone gives a cell (the source casts `p + 1` to a status). */
  function StoneOf(p: Player): (s: Status)
    ensures s != Empty
    ensures p == BluePlayer <==> s == Blue
  {
    match p
    case BluePlayer => Blue
    case RedPlayer => Red
  }

  /* ---------------------------------------------------------------------- */
  /* Row-major coordinates                                                   */
  /* ---------------------------------------------------------------------- */

  /** Index of the cell in row `i`, column `j` (both 0-based). */
  function Cell(size: nat, i: nat, j: nat): nat {
    i * size + j
  }

  /** Row of cell index `c`. */
  function Row(size: nat, c: nat): nat
    requires 0 < size
  {
    c / size
  }

  /** Column of cell index `c`. */
  function Col(size: nat, c: nat): (j: nat)
    requires 0 < size
    ensures j < size
  {
    c % size
  }

  lemma MulNonneg(a: nat, b: nat)
    ensures a * b >= 0
  {}

  lemma MulAtLeast(a: int, s: nat)
    requires a >= 1
    ensures a * s >= s
  {
    MulNonneg(a - 1, s);
    assert a * s == (a - 1) * s + s;
  }

  /** Row and column are recovered from a cell index by division and remainder. */
  lemma CellCoords(size: nat, i: nat, j: nat)
    requires j < size
    ensures Cell(size, i, j) / size == i
    ensures Cell(size, i, j) % size == j
    ensures Row(size, Cell(size, i, j)) == i && Col(size, Cell(size, i, j)) == j
  {
    var c := i * size + j;
    var q := c / size;
    var r := c % size;
    assert c == q * size + r;
    assert (q - i) * size == j - r;
    if q > i {
      MulAtLeast(q - i, size);
    } else if q < i {
      MulAtLeast(i - q, size);
    }
  }

  /** On a board of valid size there are more cells than a side is long, and their count fits in 32 bits. */
  lemma CellsFit(size: nat)
    requires ValidSize(size)
    ensures size < Area(size) < TwoTo32
  {
    MulMono(size, 2, size);
    MulMono(MaxSize, size, size);
    MulMono(MaxSize, size, MaxSize);
  }

  /** A cell index splits into its row and column. */
  lemma CellSplit(size: nat, c: nat)
    requires size > 0
    ensures c == Cell(size, c / size, c % size)
    ensures c % size < size
  {}

  /** Cells of an in-range row and column lie on the board. */
  lemma CellInRange(size: nat, i: nat, j: nat)
    requires i < size && j < size
    ensures Cell(size, i, j) < size * size
  {
    MulAtLeast(size - i, size);
    assert (size - i) * size == size * size - i * size;
  }

  lemma MulMono(a: nat, b: nat, s: nat)
    requires a >= b
    ensures a * s >= b * s
  {
    MulNonneg(a - b, s);
    assert a * s == (a - b) * s + b * s;
  }

  /** An index below `size * size` has a row below `size`. */
  lemma RowInRange(size: nat, c: nat)
    requires size > 0 && c < size * size
    ensures c / size < size
  {
    CellSplit(size, c);
    if c / size >= size {
      MulMono(c / size, size, size);
    }
  }

  /** Stepping one row down from any row but the last stays on the board. */
  lemma NextRowInRange(size: nat, c: nat)
    requires size > 0 && c < size * size && c / size < size - 1
    ensures c + size < size * size
  {
    CellSplit(size, c);
    MulMono(size - 1, c / size + 1, size);
    assert (c / size + 1) * size == (c / size) * size + size;
    assert (size - 1) * size == size * size - size;
  }

  /** The row of a cell is on the board, and so is the cell below it unless the row is the last. */
  lemma RowBounds(size: nat, c: nat)
    requires size > 0 && c < size * size
    ensures c == Cell(size, c / size, c % size) && c % size < size
    ensures c / size < size
    ensures c / size < size - 1 ==> c + size < size * size
    ensures c / size > 0 ==> c >= size
  {
    CellSplit(size, c);
    if c / size > 0 {
      MulAtLeast(c / size, size);
    }
    RowInRange(size, c);
    if c / size < size - 1 {
      NextRowInRange(size, c);
    }
  }

  /** Two cells with the same coordinates are the same cell, and conversely. */
  lemma CellInjective(size: nat, i: nat, j: nat, i2: nat, j2: nat)
    requires j < size && j2 < size
    ensures Cell(size, i, j) == Cell(size, i2, j2) <==> i == i2 && j == j2
  {
    CellCoords(size, i, j);
    CellCoords(size, i2, j2);
  }

  /* ---------------------------------------------------------------------- */
  /* Hexagonal adjacency                                                     */
  /* ---------------------------------------------------------------------- */

  /**
   * The pairs the constructor links, with (i, j) the cell met first: the
   * right-hand neighbour in the same row, and in the row below the cell in
   * the same column and the cell one column to the left.
   */
  predicate Linked(i: nat, j: nat, i2: nat, j2: nat) {
    (i2 == i && j2 == j + 1) || (i2 == i + 1 && (j2 == j || j2 + 1 == j))
  }

  /** Hex adjacency between two coordinates: linked in either order. */
  predicate AdjacentCoords(i: nat, j: nat, i2: nat, j2: nat) {
    Linked(i, j, i2, j2) || Linked(i2, j2, i, j)
  }

  /**
   * The neighbour list the constructor leaves on the cell in row `i`, column `j`,
   * in the order the pushes happen: left, right (row pass), above, above-right
   * (this row's upward pass), below-left, below (the next row's upward pass).
   */
  function NeighborsAt(size: nat, i: nat, j: nat): seq<nat> {
    (if j > 0 then [Cell(size, i, j - 1)] else [])
    + (if j + 1 < size then [Cell(size, i, j + 1)] else [])
    + (if i > 0 then [Cell(size, i - 1, j)] else [])
    + (if i > 0 && j + 1 < size then [Cell(size, i - 1, j + 1)] else [])
    + (if i + 1 < size && j > 0 then [Cell(size, i + 1, j - 1)] else [])
    + (if i + 1 < size then [Cell(size, i + 1, j)] else [])
  }

  /** The neighbour list of cell index `c`. */
  function Neighbors(size: nat, c: nat): (r: seq<nat>)
    requires 0 < size
    ensures |r| <= 6
  {
    NeighborsAt(size, Row(size, c), Col(size, c))
  }

  /** Every listed neighbour of an on-board cell is on the board. */
  lemma NeighborsAtInRange(size: nat, i: nat, j: nat)
    requires i < size && j < size
    ensures forall e :: e in NeighborsAt(size, i, j) ==> e < size * size
  {
    if j > 0 { CellInRange(size, i, j - 1); }
    if j + 1 < size { CellInRange(size, i, j + 1); }
    if i > 0 { CellInRange(size, i - 1, j); }
    if i > 0 && j + 1 < size { CellInRange(size, i - 1, j + 1); }
    if i + 1 < size && j > 0 { CellInRange(size, i + 1, j - 1); }
    if i + 1 < size { CellInRange(size, i + 1, j); }
  }

  /** Every listed neighbour is a cell of the board. */
  lemma NeighborsInRange(size: nat, c: nat)
    requires 0 < size && c < size * size
    ensures forall e :: e in Neighbors(size, c) ==> e < size * size
  {
    RowInRange(size, c);
    NeighborsAtInRange(size, Row(size, c), Col(size, c));
  }

  /** Hex-adjacent cells appear in each other's neighbour lists. */
  lemma AdjacentInNeighbors(size: nat, i: nat, j: nat, i2: nat, j2: nat)
    requires i < size && j < size && i2 < size && j2 < size
    requires AdjacentCoords(i, j, i2, j2)
    ensures Cell(size, i2, j2) in Neighbors(size, Cell(size, i, j))
  {
    CellCoords(size, i, j);
    var nb := NeighborsAt(size, i, j);
    assert Neighbors(size, Cell(size, i, j)) == nb;
  }

  /** The members of a neighbour list, one disjunct per push of the constructor. */
  lemma NeighborsAtMembers(size: nat, i: nat, j: nat, e: nat)
    ensures e in NeighborsAt(size, i, j) <==>
      || (j > 0 && e == Cell(size, i, j - 1))
      || (j + 1 < size && e == Cell(size, i, j + 1))
      || (i > 0 && e == Cell(size, i - 1, j))
      || (i > 0 && j + 1 < size && e == Cell(size, i - 1, j + 1))
      || (i + 1 < size && j > 0 && e == Cell(size, i + 1, j - 1))
      || (i + 1 < size && e == Cell(size, i + 1, j))
  {}

  /** Every listed neighbour is hex-adjacent. */
  lemma NeighborsAreAdjacent(size: nat, i: nat, j: nat, e: nat)
    requires i < size && j < size
    ensures e in Neighbors(size, Cell(size, i, j)) ==> AdjacentCoords(i, j, Row(size, e), Col(size, e))
  {
    CellCoords(size, i, j);
    NeighborsAtMembers(size, i, j, e);
    if j > 0 && e == Cell(size, i, j - 1) {
      CellCoords(size, i, j - 1);
    } else if j + 1 < size && e == Cell(size, i, j + 1) {
      CellCoords(size, i, j + 1);
    } else if i > 0 && e == Cell(size, i - 1, j) {
      CellCoords(size, i - 1, j);
    } else if i > 0 && j + 1 < size && e == Cell(size, i - 1, j + 1) {
      CellCoords(size, i - 1, j + 1);
    } else if i + 1 < size && j > 0 && e == Cell(size, i + 1, j - 1) {
      CellCoords(size, i + 1, j - 1);
    } else if i + 1 < size && e == Cell(size, i + 1, j) {
      CellCoords(size, i + 1, j);
    }
  }

  /**
   * A cell is in another's neighbour list exactly when the two are hex-adjacent:
   * same row and neighbouring columns, or consecutive rows with the lower cell
   * in the same column or one column to the left.
   */
  lemma NeighborsCharacterized(size: nat, i: nat, j: nat, i2: nat, j2: nat)
    requires i < size && j < size && i2 < size && j2 < size
    ensures Cell(size, i2, j2) in Neighbors(size, Cell(size, i, j)) <==> AdjacentCoords(i, j, i2, j2)
  {
    NeighborsAreAdjacent(size, i, j, Cell(size, i2, j2));
    CellCoords(size, i2, j2);
    if AdjacentCoords(i, j, i2, j2) {
      AdjacentInNeighbors(size, i, j, i2, j2);
    }
  }

  /** The adjacency is symmetric. */
  lemma NeighborsSymmetric(size: nat, i: nat, j: nat, i2: nat, j2: nat)
    requires i < size && j < size && i2 < size && j2 < size
    ensures Cell(size, i2, j2) in Neighbors(size, Cell(size, i, j))
            <==> Cell(size, i, j) in Neighbors(size, Cell(size, i2, j2))
  {
    NeighborsCharacterized(size, i, j, i2, j2);
    NeighborsCharacterized(size, i2, j2, i, j);
  }

  /** No cell is its own neighbour. */
  lemma NeighborsIrreflexive(size: nat, i: nat, j: nat)
    requires i < size && j < size
    ensures Cell(size, i, j) !in Neighbors(size, Cell(size, i, j))
  {
    NeighborsCharacterized(size, i, j, i, j);
  }
}
