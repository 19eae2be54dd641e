/**
 * `getAIMove`: the Monte-Carlo candidate scan. Every legal cell, in
 * row-major order, is tried: the stone is placed, `N` random completions
 * are checked for a win, the completions are reverted once and the stone is
 * undone. The first cell with the strictly highest win count is chosen.
 *
 * The random generator is replaced by `draws`: `draws(i)(j)` drives the
 * shuffle of the `j`-th trial of candidate `i`. Win rates `wins / N` are
 * compared through the integer win counts they come from, which orders
 * them the same way.
 */
module HexAI {
  import opened HexGrid
  import opened HexBoard
  import opened HexRandom
  import opened HexCheck

  /* ---------------------------------------------------------------------- */
  /* The trials of one candidate                                             */
  /* ---------------------------------------------------------------------- */

  /** The board after the trials so far, and how many of them `p` won. */
  datatype Trial = Trial(board: Board, wins: nat)

  /** During the trials of a candidate, the board is the one the stone went on, or a completion of it. */
  predicate Evaluating(m: Board, r: Board)
    requires Wf(m) && Wf(r)
  {
    r == m || Completed(m, r)
  }

  /** A completed board with an empty ledger had no empty cell to fill: it is its own completion. */
  lemma CompletedRefill(m: Board, r: Board, w: seq<Status>)
    requires Wf(m) && Wf(r) && Completed(m, r) && |r.randomized| == 0
    requires IsShuffleOf(w, FreshLabels(r))
    ensures Completed(m, Randomize(r, w))
  {
    FreshCompletes(r, w);
  }

  /** Each trial's `randomize` may run, and leaves a completion of the board the stone went on. */
  lemma TrialStep(m: Board, r: Board, w: seq<Status>)
    requires Wf(m) && Counted(m) && |m.randomized| == 0 && Wf(r) && Evaluating(m, r)
    requires IsShuffleOf(w, Labels(r))
    ensures |r.randomized| == 0 ==> EmptyCount(r.cells) <= FreeCount(r)
    ensures Completed(m, Randomize(r, w))
  {
    if r == m {
      FreshCompletes(m, w);
    } else if |r.randomized| > 0 {
      ReshuffleCompletes(m, r, w);
    } else {
      CompletedRefill(m, r, w);
    }
  }

  /**
   * The stones of `m` keep their statuses and their set membership on `r`:
   * a completion only writes cells that were empty when the stone went on.
   */
  predicate StonesKept(m: Board, r: Board)
    requires |r.cells| == |m.cells|
  {
    forall d :: 0 <= d < |m.cells| && m.cells[d] != Empty ==>
      r.cells[d] == m.cells[d] && (d in r.blue <==> d in m.blue) && (d in r.red <==> d in m.red)
  }

  /** Each trial's `randomize` leaves the stones of the board the stone went on where they were. */
  lemma KeptStep(m: Board, r: Board, w: seq<Status>)
    requires Wf(m) && Counted(m) && |m.randomized| == 0 && Wf(r) && Evaluating(m, r)
    requires IsShuffleOf(w, Labels(r)) && StonesKept(m, r)
    requires |r.randomized| == 0 ==> EmptyCount(r.cells) <= FreeCount(r)
    ensures StonesKept(m, Randomize(r, w))
  {
    var r1 := Randomize(r, w);
    if |r.randomized| == 0 {
      RandomizeFreshKeeps(r, w);
      RandomizeFreshSets(r, w);
      var e := EmptyIndices(r.cells);
      forall d | 0 <= d < |m.cells| && m.cells[d] != Empty
        ensures d !in e
      {}
    } else {
      RandomizeReshuffle(r, w);
      forall d | 0 <= d < |m.cells| && m.cells[d] != Empty
        ensures d !in r.randomized
      {}
    }
  }

  /** One trial's `randomize`, with the shuffle driven by `draw`. */
  function NextBoard(m: Board, r: Board, draw: nat -> nat): (r1: Board)
    requires Wf(m) && Counted(m) && |m.randomized| == 0 && Wf(r) && Evaluating(m, r)
    ensures Wf(r1) && Completed(m, r1)
    ensures StonesKept(m, r) ==> StonesKept(m, r1)
  {
    var w := Shuffle(Labels(r), draw);
    TrialStep(m, r, w);
    KeptStepIf(m, r, w);
    Randomize(r, w)
  }

  /**
   * Trials `j` to `n - 1` of a candidate: randomize, then count a win when
   * `check(p)` holds on the completed board.
   */
  function Trials(m: Board, p: Player, r: Board, j: nat, n: nat, draw: nat -> nat -> nat): (t: Trial)
    requires Wf(m) && Counted(m) && |m.randomized| == 0 && Wf(r) && Evaluating(m, r) && j <= n
    ensures Wf(t.board) && Evaluating(m, t.board)
    ensures j < n ==> Completed(m, t.board)
    ensures StonesKept(m, r) ==> StonesKept(m, t.board)
    ensures t.wins <= n - j
    ensures StonesKept(m, r) && HeldChain(m, p) ==> t.wins == n - j
    decreases n - j
  {
    if j == n then Trial(r, 0)
    else
      var r1 := NextBoard(m, r, draw(j));
      HeldChainWins(m, r1, p);
      var rest := Trials(m, p, r1, j + 1, n, draw);
      Trial(rest.board, rest.wins + (if Check(r1, p) then 1 else 0))
  }

  /** `KeptStep` for a board that may not keep the stones: nothing is claimed then. */
  lemma KeptStepIf(m: Board, r: Board, w: seq<Status>)
    requires Wf(m) && Counted(m) && |m.randomized| == 0 && Wf(r) && Evaluating(m, r)
    requires IsShuffleOf(w, Labels(r))
    requires |r.randomized| == 0 ==> EmptyCount(r.cells) <= FreeCount(r)
    ensures StonesKept(m, r) ==> StonesKept(m, Randomize(r, w))
  {
    if StonesKept(m, r) {
      KeptStep(m, r, w);
    }
  }

  /** A kept chain of `p`'s stones whose ends were in `p`'s set makes every trial a win. */
  lemma ChainSurvives(m: Board, r: Board, p: Player, path: seq<nat>)
    requires Wf(m) && Wf(r) && r.size == m.size && |r.cells| == |m.cells| && StonesKept(m, r)
    requires StoneChain(m, p, path) && path[0] in PlayerSet(m, p) && path[|path| - 1] in PlayerSet(m, p)
    ensures Check(r, p)
  {
    assert StoneChain(r, p, path);
    var first, last := path[0], path[|path| - 1];
    assert m.cells[first] != Empty && m.cells[last] != Empty;
    ChainWins(r, p, path);
  }

  /** `b` holds a chain of `p`'s stones across `p`'s borders whose two end cells are in `p`'s set. */
  ghost predicate HeldChain(b: Board, p: Player) {
    exists path :: StoneChain(b, p, path) && path[0] in PlayerSet(b, p) && path[|path| - 1] in PlayerSet(b, p)
  }

  /** `HeldChain` on the board the stone went on makes `check(p)` hold on any board that keeps its stones. */
  lemma HeldChainWins(m: Board, r: Board, p: Player)
    requires Wf(m) && Wf(r) && r.size == m.size && |r.cells| == |m.cells|
    ensures StonesKept(m, r) && HeldChain(m, p) ==> Check(r, p)
  {
    if StonesKept(m, r) && HeldChain(m, p) {
      var path :| StoneChain(m, p, path) && path[0] in PlayerSet(m, p) && path[|path| - 1] in PlayerSet(m, p);
      ChainSurvives(m, r, p, path);
    }
  }

  /** Reverting after the trials gives back the cells and the counter the stone was placed on. */
  lemma TrialsRevert(m: Board, r: Board)
    requires Wf(m) && Counted(m) && |m.randomized| == 0 && Wf(r) && Evaluating(m, r)
    ensures RevertRandom(r).cells == m.cells && RevertRandom(r).occupied == m.occupied
  {
    if r == m {
      assert RevertRandom(m) == m;
    } else {
      RevertRestores(m, r);
    }
  }

  /** Reverting after the trials keeps the stones of the board the stone went on in their sets. */
  lemma TrialsRevertKeeps(m: Board, r: Board)
    requires Wf(m) && Counted(m) && |m.randomized| == 0 && Wf(r) && Evaluating(m, r) && StonesKept(m, r)
    ensures StonesKept(m, RevertRandom(r))
  {
    RevertFrame(r, 0);
    assert r.randomized[0..] == r.randomized;
    forall d | 0 <= d < |m.cells| && m.cells[d] != Empty
      ensures d !in r.randomized
    {
      if r != m {
        assert r.randomized == EmptyIndices(m.cells);
      }
    }
  }

  /**
   * What is left after one candidate: move, trials ending on `t`, one
   * revert and `undo` give back the cells and the counter.
   */
  lemma CandidateRestores(b: Board, p: Player, x: U32, y: U32, t: Board)
    requires Wf(b) && Counted(b) && IsLegal(b, x, y)
    requires Wf(t) && Evaluating(Move(b, p, x, y), t)
    ensures var u := Undo(RevertRandom(t), p, x, y);
      && Wf(u) && Counted(u) && u.size == b.size
      && u.cells == b.cells && u.occupied == b.occupied
  {
    var m := Move(b, p, x, y);
    MovePreserves(b, p, x, y);
    var v := RevertRandom(t);
    TrialsRevert(m, t);
    MoveUndoRoundTrip(b, p, x, y);
    UndoFollowsCells(v, m, p, x, y);
  }

  /** `undo` reads the cells and the counter only. */
  lemma UndoFollowsCells(b: Board, b': Board, p: Player, x: U32, y: U32)
    requires Wf(b) && Wf(b') && b.size == b'.size && b.cells == b'.cells && b.occupied == b'.occupied
    ensures Undo(b, p, x, y).cells == Undo(b', p, x, y).cells
    ensures Undo(b, p, x, y).occupied == Undo(b', p, x, y).occupied
  {}

  /** After one candidate no stone of `p` has left `p`'s set. */
  lemma CandidateCovered(b: Board, p: Player, x: U32, y: U32, t: Board)
    requires Wf(b) && Counted(b) && IsLegal(b, x, y) && Covered(b, p)
    requires Wf(t) && Evaluating(Move(b, p, x, y), t) && StonesKept(Move(b, p, x, y), t)
    ensures Covered(Undo(RevertRandom(t), p, x, y), p)
  {
    var m := Move(b, p, x, y);
    var c := CellIndex(b, x, y);
    MovePreserves(b, p, x, y);
    CandidateRestores(b, p, x, y, t);
    TrialsRevertKeeps(m, t);
    var u := Undo(RevertRandom(t), p, x, y);
    forall d | 0 <= d < |u.cells| && u.cells[d] == StoneOf(p)
      ensures d in PlayerSet(u, p)
    {
      assert u.cells[d] != Empty;
      assert d != c && m.cells[d] == b.cells[d];
    }
  }

  /** `CandidateCovered`, claimed only for a board whose set holds every stone of `p`. */
  lemma CandidateCoveredIf(b: Board, p: Player, x: U32, y: U32, t: Board)
    requires Wf(b) && Counted(b) && IsLegal(b, x, y)
    requires Wf(t) && Evaluating(Move(b, p, x, y), t) && StonesKept(Move(b, p, x, y), t)
    ensures Covered(b, p) ==> Covered(Undo(RevertRandom(t), p, x, y), p)
  {
    if Covered(b, p) {
      CandidateCovered(b, p, x, y, t);
    }
  }

  /**
   * One candidate: move, run the `n` trials, revert once, undo. The result
   * holds the board afterwards and the win count.
   */
  function Evaluate(b: Board, p: Player, x: U32, y: U32, n: nat, draw: nat -> nat -> nat): (e: Trial)
    requires Wf(b) && Counted(b) && IsLegal(b, x, y)
    ensures Wf(e.board) && Counted(e.board) && e.board.size == b.size
    ensures e.board.cells == b.cells && e.board.occupied == b.occupied
    ensures Covered(b, p) ==> Covered(e.board, p)
    ensures e.wins <= n
  {
    var m := Move(b, p, x, y);
    MovePreserves(b, p, x, y);
    var t := Trials(m, p, m, 0, n, draw);
    CandidateRestores(b, p, x, y, t.board);
    CandidateCoveredIf(b, p, x, y, t.board);
    Trial(Undo(RevertRandom(t.board), p, x, y), t.wins)
  }

  /**
   * A candidate whose stone already joins `p`'s borders wins all `n`
   * trials, on any board whose sets hold every stone of `p`.
   */
  lemma EvaluateSureWin(b: Board, p: Player, x: U32, y: U32, n: nat, draw: nat -> nat -> nat, path: seq<nat>)
    requires Wf(b) && Counted(b) && IsLegal(b, x, y) && Covered(b, p)
    requires StoneChain(Move(b, p, x, y), p, path)
    ensures Evaluate(b, p, x, y, n, draw).wins == n
  {
    var m := Move(b, p, x, y);
    MovePreserves(b, p, x, y);
    MoveCovered(b, p, p, x, y);
    assert HeldChain(m, p) by {
      assert StoneChain(m, p, path) && path[0] in PlayerSet(m, p) && path[|path| - 1] in PlayerSet(m, p);
    }
  }

  /* ---------------------------------------------------------------------- */
  /* The candidate scan                                                      */
  /* ---------------------------------------------------------------------- */

  /** What the scan recorded for a cell: skipped as illegal, or the number of won trials. */
  datatype Score = Skipped | Won(wins: nat)

  function ScoreOf(s: Score): nat {
    if s.Won? then s.wins else 0
  }

  /**
   * The scan's state: the board, the best win count so far (`gwins`), the
   * chosen coordinates and the scores recorded so far.
   */
  datatype Scan = Scan(board: Board, best: nat, x: U32, y: U32, scores: seq<Score>)

  /** `k` is the first position whose score is `best`. */
  predicate FirstBest(scores: seq<Score>, k: nat, best: nat) {
    k < |scores| && ScoreOf(scores[k]) == best && forall l :: 0 <= l < k ==> ScoreOf(scores[l]) < best
  }

  /**
   * What holds after the first `i` candidates of a scan over `b` that
   * started from the coordinates `(x0, y0)`.
   */
  predicate ScanInv(b: Board, n: nat, x0: U32, y0: U32, i: nat, st: Scan)
    requires Wf(b)
  {
    && Wf(st.board) && Counted(st.board) && st.board.size == b.size
    && st.board.cells == b.cells && st.board.occupied == b.occupied
    && |st.scores| == i && i <= |b.cells|
    && (forall k :: 0 <= k < i ==> (st.scores[k].Won? <==> b.cells[k] == Empty))
    && (forall k :: 0 <= k < i ==> ScoreOf(st.scores[k]) <= st.best <= n)
    && (st.best == 0 ==> st.x == x0 && st.y == y0)
    && (st.best > 0 ==>
          1 <= st.x <= b.size && 1 <= st.y <= b.size &&
          FirstBest(st.scores, Cell(b.size, st.x - 1, st.y - 1), st.best))
  }

  /** The candidate at loop index `i` is `(i / size + 1, i % size + 1)`, which names cell `i`. */
  lemma CandidateCell(b: Board, i: nat)
    requires Wf(b) && i < |b.cells|
    ensures Row(b.size, i) + 1 <= b.size < TwoTo32 && Col(b.size, i) + 1 <= b.size
    ensures CellIndex(b, Row(b.size, i) + 1, Col(b.size, i) + 1) == i
    ensures Cell(b.size, Row(b.size, i), Col(b.size, i)) == i
  {
    CellsFit(b.size);
    RowInRange(b.size, i);
    CellSplit(b.size, i);
  }

  /** A candidate's win count becomes the best one exactly when it beats the best so far. */
  function Record(st: Scan, e: Trial, x: U32, y: U32): (r: Scan) {
    if st.best < e.wins then Scan(e.board, e.wins, x, y, st.scores + [Won(e.wins)])
    else Scan(e.board, st.best, st.x, st.y, st.scores + [Won(e.wins)])
  }

  /** Recording an evaluated candidate keeps the scan invariant. */
  lemma RecordStep(b: Board, n: nat, x0: U32, y0: U32, i: nat, st: Scan, e: Trial, x: U32, y: U32)
    requires Wf(b) && ScanInv(b, n, x0, y0, i, st) && i < |b.cells| && b.cells[i] == Empty
    requires x == Row(b.size, i) + 1 && y == Col(b.size, i) + 1
    requires Wf(e.board) && Counted(e.board) && e.board.size == b.size
    requires e.board.cells == b.cells && e.board.occupied == b.occupied && e.wins <= n
    ensures ScanInv(b, n, x0, y0, i + 1, Record(st, e, x, y))
  {
    CandidateCell(b, i);
    var r := Record(st, e, x, y);
    assert forall k :: 0 <= k < i ==> r.scores[k] == st.scores[k];
    assert r.scores[i] == Won(e.wins);
    if st.best < e.wins {
      assert FirstBest(r.scores, i, r.best);
    } else if st.best > 0 {
      var c := Cell(b.size, st.x - 1, st.y - 1);
      assert FirstBest(st.scores, c, st.best);
      assert FirstBest(r.scores, c, r.best);
    }
  }

  /** Skipping an illegal candidate keeps the scan invariant. */
  lemma SkipStep(b: Board, n: nat, x0: U32, y0: U32, i: nat, st: Scan)
    requires Wf(b) && ScanInv(b, n, x0, y0, i, st) && i < |b.cells| && b.cells[i] != Empty
    ensures ScanInv(b, n, x0, y0, i + 1, st.(scores := st.scores + [Skipped]))
  {
    var r := st.(scores := st.scores + [Skipped]);
    assert forall k :: 0 <= k < i ==> r.scores[k] == st.scores[k];
    if st.best > 0 {
      var c := Cell(b.size, st.x - 1, st.y - 1);
      assert FirstBest(st.scores, c, st.best);
      assert FirstBest(r.scores, c, r.best);
    }
  }

  /** The cells of `b` with `p`'s stone placed on cell `k`. */
  function Placed(b: Board, p: Player, k: nat): Board
    requires k < |b.cells|
  {
    b.(cells := b.cells[k := StoneOf(p)])
  }

  /** Placing `p`'s stone on cell `k` of `b` already joins `p`'s borders. */
  ghost predicate SureWin(b: Board, p: Player, k: nat)
    requires k < |b.cells|
  {
    exists path :: StoneChain(Placed(b, p, k), p, path)
  }

  /**
   * The scan's board holds every stone of `p` in `p`'s set, and every empty
   * cell scanned so far whose stone would join `p`'s borders scored all `n`
   * trials.
   */
  ghost predicate SureWinsScored(b: Board, p: Player, n: nat, st: Scan) {
    && Covered(st.board, p)
    && forall k :: 0 <= k < |st.scores| && k < |b.cells| && b.cells[k] == Empty && SureWin(b, p, k) ==>
         st.scores[k] == Won(n)
  }

  /** A candidate cell of the scan whose stone joins `p`'s borders wins all `n` trials. */
  lemma CandidateSure(b: Board, c: Board, p: Player, n: nat, i: nat, x: U32, y: U32, draw: nat -> nat -> nat)
    requires Wf(b) && Wf(c) && Counted(c) && Covered(c, p) && c.size == b.size && c.cells == b.cells
    requires i < |b.cells| && x == Row(b.size, i) + 1 && y == Col(b.size, i) + 1 && IsLegal(c, x, y)
    requires SureWin(b, p, i)
    ensures Evaluate(c, p, x, y, n, draw).wins == n
  {
    CandidateCell(b, i);
    var path :| StoneChain(Placed(b, p, i), p, path);
    var m := Move(c, p, x, y);
    assert CellIndex(c, x, y) == i;
    assert m.cells == Placed(b, p, i).cells;
    ChainsFollowCells(m, Placed(b, p, i), p, path);
    EvaluateSureWin(c, p, x, y, n, draw, path);
  }

  /** A candidate whose stone joins `p`'s borders and that won all `n` trials is recorded with `n` wins. */
  lemma RecordSure(b: Board, p: Player, n: nat, i: nat, st: Scan, e: Trial, x: U32, y: U32)
    requires |st.scores| == i < |b.cells| && Covered(e.board, p)
    requires SureWin(b, p, i) ==> e.wins == n
    requires SureWinsScored(b, p, n, st)
    ensures SureWinsScored(b, p, n, Record(st, e, x, y))
  {
    var r := Record(st, e, x, y);
    assert forall k :: 0 <= k < i ==> r.scores[k] == st.scores[k];
    assert r.scores[i] == Won(e.wins);
  }

  /** Skipping an occupied cell keeps the recorded sure wins. */
  lemma SkipSure(b: Board, p: Player, n: nat, i: nat, st: Scan)
    requires Wf(b) && |st.scores| == i < |b.cells| && b.cells[i] != Empty
    requires SureWinsScored(b, p, n, st)
    ensures SureWinsScored(b, p, n, st.(scores := st.scores + [Skipped]))
  {
    var r := st.(scores := st.scores + [Skipped]);
    assert forall k :: 0 <= k < i ==> r.scores[k] == st.scores[k];
  }

  /** One pass of the loop of `getAIMove`: candidate `i` is evaluated and recorded, or skipped. */
  function ScanNext(b: Board, p: Player, n: nat, draws: nat -> nat -> nat -> nat, x0: U32, y0: U32, i: nat, st: Scan): (r: Scan)
    requires Wf(b) && ScanInv(b, n, x0, y0, i, st) && i < |b.cells|
    ensures ScanInv(b, n, x0, y0, i + 1, r)
    ensures SureWinsScored(b, p, n, st) ==> SureWinsScored(b, p, n, r)
  {
    CandidateCell(b, i);
    var x := Row(b.size, i) + 1;
    var y := Col(b.size, i) + 1;
    LegalDependsOnCells(b, st.board, x, y);
    if IsLegal(st.board, x, y) then
      var e := Evaluate(st.board, p, x, y, n, draws(i));
      RecordStep(b, n, x0, y0, i, st, e, x, y);
      RecordSureIf(b, p, n, i, st, x, y, draws(i));
      Record(st, e, x, y)
    else
      SkipStep(b, n, x0, y0, i, st);
      SkipSureIf(b, p, n, i, st);
      st.(scores := st.scores + [Skipped])
  }

  /** The loop of `getAIMove` from candidate `i` on. */
  function ScanFrom(b: Board, p: Player, n: nat, draws: nat -> nat -> nat -> nat, x0: U32, y0: U32, i: nat, st: Scan): (r: Scan)
    requires Wf(b) && ScanInv(b, n, x0, y0, i, st)
    ensures ScanInv(b, n, x0, y0, |b.cells|, r)
    ensures SureWinsScored(b, p, n, st) ==> SureWinsScored(b, p, n, r)
    decreases |b.cells| - i
  {
    if i == |b.cells| then st
    else ScanFrom(b, p, n, draws, x0, y0, i + 1, ScanNext(b, p, n, draws, x0, y0, i, st))
  }

  /** `RecordSure` for the evaluated candidate, claimed only when the recorded sure wins held before. */
  lemma RecordSureIf(b: Board, p: Player, n: nat, i: nat, st: Scan, x: U32, y: U32, draw: nat -> nat -> nat)
    requires Wf(b) && Wf(st.board) && Counted(st.board) && st.board.size == b.size && st.board.cells == b.cells
    requires |st.scores| == i < |b.cells|
    requires x == Row(b.size, i) + 1 && y == Col(b.size, i) + 1 && IsLegal(st.board, x, y)
    ensures SureWinsScored(b, p, n, st) ==> SureWinsScored(b, p, n, Record(st, Evaluate(st.board, p, x, y, n, draw), x, y))
  {
    if SureWinsScored(b, p, n, st) {
      var e := Evaluate(st.board, p, x, y, n, draw);
      if SureWin(b, p, i) {
        CandidateSure(b, st.board, p, n, i, x, y, draw);
      }
      RecordSure(b, p, n, i, st, e, x, y);
    }
  }

  /** `SkipSure`, claimed only when the recorded sure wins held before. */
  lemma SkipSureIf(b: Board, p: Player, n: nat, i: nat, st: Scan)
    requires Wf(b) && |st.scores| == i < |b.cells| && b.cells[i] != Empty
    ensures SureWinsScored(b, p, n, st) ==> SureWinsScored(b, p, n, st.(scores := st.scores + [Skipped]))
  {
    if SureWinsScored(b, p, n, st) {
      SkipSure(b, p, n, i, st);
    }
  }

  /**
   * `getAIMove(p, x, y, N)` on a counted board. The scan evaluates exactly
   * the empty cells; its best count is the highest one recorded; the chosen
   * coordinates name the first cell with that count, and stay `(x, y)` when
   * every count is 0. On return every cell and the counter are as on entry.
   * When `p`'s set holds all of `p`'s stones, an empty cell whose stone
   * would join `p`'s borders scores all `N` trials, and so the best count
   * is `N`.
   */
  function GetAIMove(b: Board, p: Player, x: U32, y: U32, n: nat, draws: nat -> nat -> nat -> nat): (r: Scan)
    requires Wf(b) && Counted(b)
    ensures r.board.cells == b.cells && r.board.occupied == b.occupied && Wf(r.board) && Counted(r.board)
    ensures |r.scores| == |b.cells|
    ensures forall k :: 0 <= k < |b.cells| ==> (r.scores[k].Won? <==> b.cells[k] == Empty)
    ensures forall k :: 0 <= k < |b.cells| ==> ScoreOf(r.scores[k]) <= r.best <= n
    ensures r.best == 0 ==> r.x == x && r.y == y
    ensures r.best > 0 ==>
      && IsLegal(b, r.x, r.y)
      && FirstBest(r.scores, CellIndex(b, r.x, r.y), r.best)
    ensures Covered(b, p) ==> forall k :: 0 <= k < |b.cells| && b.cells[k] == Empty && SureWin(b, p, k) ==>
      r.scores[k] == Won(n) && r.best == n
  {
    var r := ScanFrom(b, p, n, draws, x, y, 0, Scan(b, 0, x, y, []));
    ScanChoice(b, n, x, y, r);
    SureWinsBest(b, p, n, x, y, r);
    r
  }

  /** At the end of the scan a positive best count names a legal cell, the first with that count. */
  lemma ScanChoice(b: Board, n: nat, x0: U32, y0: U32, r: Scan)
    requires Wf(b) && ScanInv(b, n, x0, y0, |b.cells|, r)
    ensures r.best > 0 ==> IsLegal(b, r.x, r.y) && FirstBest(r.scores, CellIndex(b, r.x, r.y), r.best)
  {
    if r.best > 0 {
      var c := Cell(b.size, r.x - 1, r.y - 1);
      assert CellIndex(b, r.x, r.y) == c;
      assert FirstBest(r.scores, c, r.best);
      assert r.scores[c].Won?;
    }
  }

  /** At the end of the scan a recorded sure win is a best count of `n`. */
  lemma SureWinsBest(b: Board, p: Player, n: nat, x0: U32, y0: U32, r: Scan)
    requires Wf(b) && ScanInv(b, n, x0, y0, |b.cells|, r)
    requires Covered(b, p) ==> SureWinsScored(b, p, n, r)
    ensures Covered(b, p) ==> forall k :: 0 <= k < |b.cells| && b.cells[k] == Empty && SureWin(b, p, k) ==>
      r.scores[k] == Won(n) && r.best == n
  {
    if Covered(b, p) {
      forall k | 0 <= k < |b.cells| && b.cells[k] == Empty && SureWin(b, p, k)
        ensures r.scores[k] == Won(n) && r.best == n
      {
        assert ScoreOf(r.scores[k]) <= r.best <= n;
      }
    }
  }

  /**
   * On a consistent board, a cell where `p`'s stone would complete `p`'s
   * chain is scored with all `N` trials, and `N` is the best count.
   */
  lemma GetAIMoveSeesSureWin(b: Board, p: Player, x: U32, y: U32, n: nat, draws: nat -> nat -> nat -> nat, k: nat)
    requires Wf(b) && Counted(b) && Consistent(b)
    requires k < |b.cells| && b.cells[k] == Empty && SureWin(b, p, k)
    ensures GetAIMove(b, p, x, y, n, draws).scores[k] == Won(n)
    ensures GetAIMove(b, p, x, y, n, draws).best == n
  {
    ConsistentCovered(b, p);
  }
}
