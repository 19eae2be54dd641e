/**
 * The `undo` defect and what it does to `check`. `undo` empties the cell
 * before it tests the cell's colour, so the index stays in the mover's set.
 * `check` seeds its search from that set, so an empty start-border cell
 * that was once tried can start a winning chain. On a 3x3 board this gives
 * Blue a win with no blue stone on the last row.
 */
module HexFindings {
  import opened HexGrid
  import opened HexBoard
  import opened HexCheck

  /** `move` followed by the as-written `undo` always leaves an empty cell in the mover's set. */
  lemma UndoBreaksConsistency(b: Board, p: Player, x: U32, y: U32)
    requires Wf(b) && IsLegal(b, x, y)
    ensures !Consistent(Undo(Move(b, p, x, y), p, x, y))
  {
    var c := CellIndex(b, x, y);
    MoveUndoRoundTrip(b, p, x, y);
    var u := Undo(Move(b, p, x, y), p, x, y);
    assert c in PlayerSet(u, p) && u.cells[c] == Empty;
  }

  /**
   * With the intended `undo`, trying a move and taking it back leaves every
   * answer of `check` as it was.
   */
  lemma IntendedUndoKeepsCheck(b: Board, p: Player, q: Player, x: U32, y: U32)
    requires Wf(b) && Consistent(b) && IsLegal(b, x, y)
    ensures Check(UndoIntended(Move(b, p, x, y), p, x, y), q) == Check(b, q)
  {
    var u := UndoIntended(Move(b, p, x, y), p, x, y);
    MoveUndoIntendedRoundTrip(b, p, x, y);
    CheckConsistent(b, q);
    CheckConsistent(u, q);
    forall path
      ensures StoneChain(b, q, path) <==> StoneChain(u, q, path)
    {
      ChainsFollowCells(b, u, q, path);
    }
  }

  /* ---------------------------------------------------------------------- */
  /* A concrete false win                                                    */
  /* ---------------------------------------------------------------------- */

  /** A 3x3 board with Blue stones at (1,1) and (2,1), cells 0 and 3. */
  function TwoBlue(): (b: Board)
    ensures Wf(b) && Consistent(b)
    ensures b.size == 3 && b.cells == [Blue, Empty, Empty, Blue, Empty, Empty, Empty, Empty, Empty]
    ensures b.blue == {0, 3} && b.red == {}
  {
    var b1 := Move(NewBoard(3), BluePlayer, 1, 1);
    FirstStone();
    SecondStone(b1);
    Move(b1, BluePlayer, 2, 1)
  }

  /** Blue's first stone at (1,1) on an empty 3x3 board lands in cell 0. */
  lemma FirstStone()
    ensures var b1 := Move(NewBoard(3), BluePlayer, 1, 1);
      && Consistent(b1) && b1.size == 3 && b1.blue == {0} && b1.red == {}
      && b1.cells == [Blue, Empty, Empty, Empty, Empty, Empty, Empty, Empty, Empty]
  {
    var b0 := NewBoard(3);
    MovePreserves(b0, BluePlayer, 1, 1);
    assert CellIndex(b0, 1, 1) == 0 && b0.cells[0] == Empty;
    var b1 := Move(b0, BluePlayer, 1, 1);
    assert forall d :: 0 < d < 9 ==> b1.cells[d] == b0.cells[d] == Empty;
  }

  /** Blue's second stone at (2,1) lands in cell 3. */
  lemma SecondStone(b1: Board)
    requires Wf(b1) && Consistent(b1) && b1.size == 3 && b1.blue == {0} && b1.red == {}
    requires b1.cells == [Blue, Empty, Empty, Empty, Empty, Empty, Empty, Empty, Empty]
    ensures var b2 := Move(b1, BluePlayer, 2, 1);
      && Consistent(b2) && b2.size == 3 && b2.blue == {0, 3} && b2.red == {}
      && b2.cells == [Blue, Empty, Empty, Blue, Empty, Empty, Empty, Empty, Empty]
  {
    MovePreserves(b1, BluePlayer, 2, 1);
    assert CellIndex(b1, 2, 1) == 3;
    var b2 := Move(b1, BluePlayer, 2, 1);
    assert forall d :: 0 <= d < 9 && d != 3 ==> b2.cells[d] == b1.cells[d];
  }

  /** Blue has not won on that board: no blue cell is on the last row. */
  lemma TwoBlueNoWin()
    ensures !Check(TwoBlue(), BluePlayer)
  {}

  /** No chain of blue stones reaches the last row of a board whose last row is empty. */
  lemma NoChainFromEmptyRow(b: Board)
    requires Wf(b) && b.size == 3 && b.cells[6] == Empty && b.cells[7] == Empty && b.cells[8] == Empty
    ensures !exists path :: StoneChain(b, BluePlayer, path)
  {
    if path :| StoneChain(b, BluePlayer, path) {
      StartBorderCell(3, BluePlayer, path[0]);
    }
  }

  /** Blue's try at (3,1), cell 6, taken back with the as-written `undo`: cell 6 is empty again but stays in Blue's set. */
  lemma StaleBoard()
    ensures var b := TwoBlue(); var u := Undo(Move(b, BluePlayer, 3, 1), BluePlayer, 3, 1);
      u.size == 3 && u.cells == b.cells && 6 in u.blue && 0 in u.blue
  {
    var b := TwoBlue();
    MoveUndoRoundTrip(b, BluePlayer, 3, 1);
    assert CellIndex(b, 3, 1) == 6;
  }

  /** On a 3x3 board cell 6, (3,1), touches 7, 3 and 4. */
  lemma NeighborsOfSix()
    ensures Neighbors(3, 6) == [7, 3, 4]
  {
    assert Row(3, 6) == 2 && Col(3, 6) == 0;
  }

  /** On a 3x3 board cell 3, (2,1), touches 4, 0, 1 and 6. */
  lemma NeighborsOfThree()
    ensures Neighbors(3, 3) == [4, 0, 1, 6]
  {
    assert Row(3, 3) == 1 && Col(3, 3) == 0;
  }

  /** Cell 6 is on Blue's start row and cell 0 on Blue's end row. */
  lemma BlueBorders()
    ensures OnStartBorder(3, BluePlayer, 6) && OnEndBorder(3, BluePlayer, 0)
  {
    assert Row(3, 6) == 2 && Row(3, 0) == 0;
  }

  /** On such a board the blue stones 3 and 0 continue the stale seed 6 to the first row. */
  lemma StaleChain(u: Board)
    requires Wf(u) && u.size == 3 && u.cells == [Blue, Empty, Empty, Blue, Empty, Empty, Empty, Empty, Empty]
    requires 6 in u.blue && 0 in u.blue
    ensures Connects(u, BluePlayer, [6, 3, 0])
  {
    var path := [6, 3, 0];
    NeighborsOfSix();
    NeighborsOfThree();
    BlueBorders();
    forall k | 0 < k < |path|
      ensures path[k] < |u.cells| && u.cells[path[k]] == StoneOf(BluePlayer)
    {
      assert path[k] == 3 || path[k] == 0;
    }
    forall k: nat | k + 1 < |path|
      ensures Step(u.size, path, k)
    {
      assert k == 0 || k == 1;
    }
  }

  /** A board with those cells and a stale seed 6 gets a Blue win from `check`, though no blue chain exists. */
  lemma StaleWin(u: Board)
    requires Wf(u) && u.size == 3 && u.cells == [Blue, Empty, Empty, Blue, Empty, Empty, Empty, Empty, Empty]
    requires 6 in u.blue && 0 in u.blue
    ensures Check(u, BluePlayer)
    ensures !exists path :: StoneChain(u, BluePlayer, path)
  {
    StaleChain(u);
    CheckIff(u, BluePlayer);
    NoChainFromEmptyRow(u);
  }

  /**
   * As written: Blue tries (3,1), cell 6, and takes it back. The cells are
   * as before and Blue has still not reached the last row, yet `check`
   * now reports a Blue win along 6, 3, 0.
   */
  lemma StaleSeedWin()
    ensures var b := TwoBlue(); var u := Undo(Move(b, BluePlayer, 3, 1), BluePlayer, 3, 1);
      && u.cells == b.cells
      && !Check(b, BluePlayer) && Check(u, BluePlayer)
      && !exists path :: StoneChain(u, BluePlayer, path)
  {
    TwoBlueNoWin();
    StaleBoard();
    StaleWin(Undo(Move(TwoBlue(), BluePlayer, 3, 1), BluePlayer, 3, 1));
  }

  /** Corrected: with the intended `undo` the same try-and-take-back leaves no Blue win. */
  lemma IntendedNoStaleWin()
    ensures !Check(UndoIntended(Move(TwoBlue(), BluePlayer, 3, 1), BluePlayer, 3, 1), BluePlayer)
  {
    TwoBlueNoWin();
    IntendedUndoKeepsCheck(TwoBlue(), BluePlayer, BluePlayer, 3, 1);
  }
}
