/**
 * The mutable part of the Hex board as an immutable record: one status per
 * cell, the two per-player index sets (the key sets of `blueEdgeList` and
 * `redEdgeList`), the `occupied` counter, the last mover and the ledger of
 * cells filled by the most recent random completion (`randomized`).
 * Coordinates passed to the operations are 1-based and unsigned, as in the
 * source.
 */
module HexBoard {
  import opened HexGrid

  datatype Board = Board(
    size: nat,
    cells: seq<Status>,
    blue: set<nat>,
    red: set<nat>,
    occupied: U32,
    last: Player,
    randomized: seq<nat>)

  /** Structural well-formedness, kept by every operation. */
  predicate Wf(b: Board) {
    ValidSize(b.size) && |b.cells| == Area(b.size) && InRange(b)
  }

  /** Every index held in a set or in the ledger names a cell. */
  predicate InRange(b: Board) {
    && (forall c :: c in b.blue ==> c < |b.cells|)
    && (forall c :: c in b.red ==> c < |b.cells|)
    && (forall k :: 0 <= k < |b.randomized| ==> b.randomized[k] < |b.cells|)
  }

  /** The index set of player `p`. */
  function PlayerSet(b: Board, p: Player): set<nat> {
    if p == BluePlayer then b.blue else b.red
  }

  /** Number of `Empty` cells. */
  function EmptyCount(cells: seq<Status>): nat {
    multiset(cells)[Empty]
  }

  /** The counter invariant: `occupied` is the number of non-empty cells. */
  predicate Counted(b: Board) {
    b.occupied + EmptyCount(b.cells) == |b.cells|
  }

  /** Every cell holds a stone. */
  predicate Full(b: Board) {
    forall c :: 0 <= c < |b.cells| ==> b.cells[c] != Empty
  }

  /** The player sets hold exactly the cells of the player's colour. */
  predicate Consistent(b: Board) {
    && (forall c :: c in b.blue ==> c < |b.cells|)
    && (forall c :: c in b.red ==> c < |b.cells|)
    && (forall c :: 0 <= c < |b.cells| ==> (c in b.blue <==> b.cells[c] == Blue))
    && (forall c :: 0 <= c < |b.cells| ==> (c in b.red <==> b.cells[c] == Red))
  }

  /**
   * Every stone of `p` is in `p`'s set. The set may hold more: the
   * as-written `undo` leaves emptied cells in it.
   */
  predicate Covered(b: Board, p: Player) {
    forall c :: 0 <= c < |b.cells| && b.cells[c] == StoneOf(p) ==> c in PlayerSet(b, p)
  }

  /** The sets of a consistent board hold every stone. */
  lemma ConsistentCovered(b: Board, p: Player)
    requires Consistent(b)
    ensures Covered(b, p)
  {
    forall c | 0 <= c < |b.cells| && b.cells[c] == StoneOf(p)
      ensures c in PlayerSet(b, p)
    {}
  }

  /** A board with every cell empty (the constructor and the member initialisers). */
  function NewBoard(size: nat): (b: Board)
    requires ValidSize(size)
    ensures Wf(b) && Counted(b) && Consistent(b)
    ensures b.size == size && EmptyCount(b.cells) == size * size && b.occupied == 0
    ensures b.blue == {} && b.red == {} && b.randomized == [] && b.last == BluePlayer
  {
    var cells := seq(size * size, _ => Empty);
    ConstSeqCount(size * size, Empty, Empty);
    Board(size, cells, {}, {}, 0, BluePlayer, [])
  }

  /** A run of `n` copies of `s` holds `n` copies of `s` and nothing else. */
  lemma {:induction false} ConstSeqCount(n: nat, s: Status, t: Status)
    ensures multiset(seq(n, _ => s))[t] == if s == t then n else 0
  {
    if n > 0 {
      assert seq(n, _ => s) == seq(n - 1, _ => s) + [s];
      ConstSeqCount(n - 1, s, t);
    }
  }

  /* ---------------------------------------------------------------------- */
  /* Bounds and legality                                                     */
  /* ---------------------------------------------------------------------- */

  /**
   * `isOOB`: the source tests `x-1 >= 0` (always true for unsigned values)
   * and `x-1 < size`, where `x-1` wraps to 2^32-1 when `x` is 0.
   */
  function IsOOB(b: Board, x: U32, y: U32): (oob: bool)
    requires b.size < TwoTo32
    ensures oob <==> !(1 <= x <= b.size && 1 <= y <= b.size)
  {
    !(Pred32(x) < b.size && Pred32(y) < b.size)
  }

  /** Row-major index of the 1-based coordinates (x, y). */
  function CellIndex(b: Board, x: U32, y: U32): (c: nat)
    requires Wf(b) && 1 <= x <= b.size && 1 <= y <= b.size
    ensures c < |b.cells|
    ensures c / b.size == x - 1 && c % b.size == y - 1
  {
    CellInRange(b.size, x - 1, y - 1);
    CellCoords(b.size, x - 1, y - 1);
    Cell(b.size, x - 1, y - 1)
  }

  /** `isEmpty`: reads the cell, so its caller must have checked the bounds. */
  function IsEmpty(b: Board, x: U32, y: U32): bool
    requires Wf(b) && !IsOOB(b, x, y)
  {
    b.cells[CellIndex(b, x, y)] == Empty
  }

  /** `isLegal`: in bounds and empty. */
  function IsLegal(b: Board, x: U32, y: U32): (legal: bool)
    requires Wf(b)
    ensures legal <==> 1 <= x <= b.size && 1 <= y <= b.size && b.cells[CellIndex(b, x, y)] == Empty
  {
    !IsOOB(b, x, y) && IsEmpty(b, x, y)
  }

  /** Legality depends on the size and the cell statuses only. */
  lemma LegalDependsOnCells(b: Board, b': Board, x: U32, y: U32)
    requires Wf(b) && Wf(b') && b.size == b'.size && b.cells == b'.cells
    ensures IsLegal(b, x, y) == IsLegal(b', x, y)
  {}

  /* ---------------------------------------------------------------------- */
  /* Move, undo, clear                                                       */
  /* ---------------------------------------------------------------------- */

  /**
   * `move`: a legal move colours the cell, records it in the mover's set,
   * increments `occupied`, empties the ledger and records the mover; an
   * illegal one changes nothing (the source only prints a message).
   */
  function Move(b: Board, p: Player, x: U32, y: U32): (r: Board)
    requires Wf(b)
    ensures Wf(r) && r.size == b.size && |r.cells| == |b.cells|
    ensures !IsLegal(b, x, y) ==> r == b
    ensures IsLegal(b, x, y) ==>
      var c := CellIndex(b, x, y);
      && r.cells[c] == StoneOf(p)
      && (forall d :: 0 <= d < |b.cells| && d != c ==> r.cells[d] == b.cells[d])
      && PlayerSet(r, p) == PlayerSet(b, p) + {c}
      && PlayerSet(r, p.Opponent()) == PlayerSet(b, p.Opponent())
      && r.occupied == Succ32(b.occupied)
      && r.randomized == []
      && r.last == p
  {
    if IsLegal(b, x, y) then
      var c := CellIndex(b, x, y);
      b.(cells := b.cells[c := StoneOf(p)],
         blue := if p == BluePlayer then b.blue + {c} else b.blue,
         red := if p == RedPlayer then b.red + {c} else b.red,
         occupied := Succ32(b.occupied),
         randomized := [],
         last := p)
    else
      b
  }

  /** `move` keeps the counter and set invariants. */
  lemma MovePreserves(b: Board, p: Player, x: U32, y: U32)
    requires Wf(b)
    ensures Counted(b) ==> Counted(Move(b, p, x, y))
    ensures Consistent(b) ==> Consistent(Move(b, p, x, y))
  {
    if IsLegal(b, x, y) && Counted(b) {
      var c := CellIndex(b, x, y);
      assert b.cells[c] in multiset(b.cells);
      CellsFit(b.size);
    }
  }

  /** `move` keeps every stone of either player in that player's set. */
  lemma MoveCovered(b: Board, p: Player, q: Player, x: U32, y: U32)
    requires Wf(b) && Covered(b, q)
    ensures Covered(Move(b, p, x, y), q)
  {
    if IsLegal(b, x, y) {
      var r := Move(b, p, x, y);
      var c := CellIndex(b, x, y);
      forall d | 0 <= d < |r.cells| && r.cells[d] == StoneOf(q)
        ensures d in PlayerSet(r, q)
      {
        assert d != c ==> b.cells[d] == r.cells[d];
      }
    }
  }

  /**
   * `undo` as written: the status is reset to EMPTY before it is compared
   * with the player's colour, so neither comparison can succeed; the index
   * is never removed from a player set and `last` never changes.
   */
  function Undo(b: Board, p: Player, x: U32, y: U32): (r: Board)
    requires Wf(b)
    ensures Wf(r) && r.size == b.size && |r.cells| == |b.cells|
    ensures r.blue == b.blue && r.red == b.red && r.last == b.last && r.randomized == b.randomized
    ensures IsOOB(b, x, y) || IsEmpty(b, x, y) ==> r == b
    ensures !IsOOB(b, x, y) && !IsEmpty(b, x, y) ==>
      var c := CellIndex(b, x, y);
      && r.cells[c] == Empty
      && (forall d :: 0 <= d < |b.cells| && d != c ==> r.cells[d] == b.cells[d])
      && r.occupied == Pred32(b.occupied)
  {
    if !IsOOB(b, x, y) && !IsEmpty(b, x, y) then
      var c := CellIndex(b, x, y);
      var b1 := b.(cells := b.cells[c := Empty], occupied := Pred32(b.occupied));
      if p == BluePlayer && b1.cells[c] == Blue then
        b1.(blue := b1.blue - {c}, last := RedPlayer)
      else if p == RedPlayer && b1.cells[c] == Red then
        b1.(red := b1.red - {c}, last := BluePlayer)
      else
        b1
    else
      b
  }

  lemma {:induction false} CountAtMostLength(s: seq<Status>, v: Status)
    ensures multiset(s)[v] <= |s|
  {
    if |s| > 0 {
      assert s == s[..|s| - 1] + [s[|s| - 1]];
      CountAtMostLength(s[..|s| - 1], v);
    }
  }

  /** A board with a stone on it has fewer empty cells than cells. */
  lemma EmptyCountBelow(cells: seq<Status>, c: nat)
    requires c < |cells| && cells[c] != Empty
    ensures EmptyCount(cells) < |cells|
  {
    assert cells == cells[..c] + [cells[c]] + cells[c + 1..];
    CountAtMostLength(cells[..c], Empty);
    CountAtMostLength(cells[c + 1..], Empty);
  }

  /** `undo` keeps the counter invariant. */
  lemma UndoPreservesCounted(b: Board, p: Player, x: U32, y: U32)
    requires Wf(b) && Counted(b)
    ensures Counted(Undo(b, p, x, y))
  {
    if !IsOOB(b, x, y) && !IsEmpty(b, x, y) {
      var c := CellIndex(b, x, y);
      EmptyCountBelow(b.cells, c);
    }
  }

  /**
   * `move` followed by `undo` on the same legal cell restores every cell and
   * the counter. The mover's set keeps the index: the round trip does not
   * restore the player sets.
   */
  lemma MoveUndoRoundTrip(b: Board, p: Player, x: U32, y: U32)
    requires Wf(b) && IsLegal(b, x, y)
    ensures Undo(Move(b, p, x, y), p, x, y).cells == b.cells
    ensures Undo(Move(b, p, x, y), p, x, y).occupied == b.occupied
    ensures PlayerSet(Undo(Move(b, p, x, y), p, x, y), p) == PlayerSet(b, p) + {CellIndex(b, x, y)}
  {
    var m := Move(b, p, x, y);
    var c := CellIndex(b, x, y);
    assert !IsEmpty(m, x, y);
    var u := Undo(m, p, x, y);
    assert u.cells == b.cells;
  }

  /**
   * The evidently intended `undo`: compare the status with the player's
   * colour first, then reset it, so that the index leaves the player's set
   * and the turn passes back.
   */
  function UndoIntended(b: Board, p: Player, x: U32, y: U32): (r: Board)
    requires Wf(b)
    ensures Wf(r) && r.size == b.size && |r.cells| == |b.cells|
  {
    if !IsOOB(b, x, y) && !IsEmpty(b, x, y) then
      var c := CellIndex(b, x, y);
      var b1 := b.(cells := b.cells[c := Empty], occupied := Pred32(b.occupied));
      if p == BluePlayer && b.cells[c] == Blue then
        b1.(blue := b1.blue - {c}, last := RedPlayer)
      else if p == RedPlayer && b.cells[c] == Red then
        b1.(red := b1.red - {c}, last := BluePlayer)
      else
        b1
    else
      b
  }

  /**
   * With the intended `undo`, `move` followed by `undo` restores the cells,
   * both player sets and the counter of a consistent board, and keeps it
   * consistent.
   */
  lemma MoveUndoIntendedRoundTrip(b: Board, p: Player, x: U32, y: U32)
    requires Wf(b) && Consistent(b) && IsLegal(b, x, y)
    ensures var u := UndoIntended(Move(b, p, x, y), p, x, y);
      && u.cells == b.cells && u.blue == b.blue && u.red == b.red
      && u.occupied == b.occupied && Consistent(u)
  {
    var m := Move(b, p, x, y);
    var c := CellIndex(b, x, y);
    assert !IsEmpty(m, x, y);
    assert c !in b.blue && c !in b.red;
    var u := UndoIntended(m, p, x, y);
    assert u.cells == b.cells;
  }

  /** `clear`: every cell empty, both sets and the ledger empty, counter zero; `last` is kept. */
  function Clear(b: Board): (r: Board)
    requires Wf(b)
    ensures Wf(r) && Counted(r) && Consistent(r)
    ensures r.size == b.size && |r.cells| == |b.cells| && r.last == b.last
    ensures forall c :: 0 <= c < |r.cells| ==> r.cells[c] == Empty
    ensures r.blue == {} && r.red == {} && r.randomized == [] && r.occupied == 0
  {
    var cells := seq(|b.cells|, _ => Empty);
    ConstSeqCount(|b.cells|, Empty, Empty);
    b.(cells := cells, blue := {}, red := {}, randomized := [], occupied := 0)
  }
}
