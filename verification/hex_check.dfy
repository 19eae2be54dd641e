/**
 * `check`: the depth-first search that decides whether a player has joined
 * their two borders. Blue starts from the last row and looks for the first
 * row; Red starts from the first column and looks for the last one. The
 * start cells and the goal cells are taken from the player's index set,
 * while the search itself follows cell statuses.
 */
module HexCheck {
  import opened HexGrid
  import opened HexBoard

  /* ---------------------------------------------------------------------- */
  /* Borders                                                                 */
  /* ---------------------------------------------------------------------- */

  /** The `i`-th start cell of `p`: `size*(size-1)+i` for Blue, `i*size` for Red. */
  function StartCell(size: nat, p: Player, i: nat): nat
    requires 0 < size
  {
    if p == BluePlayer then Cell(size, size - 1, i) else Cell(size, i, 0)
  }

  /** The `i`-th goal cell of `p`: `i` for Blue, `i*size+size-1` for Red. */
  function EndCell(size: nat, p: Player, i: nat): nat
    requires 0 < size
  {
    if p == BluePlayer then Cell(size, 0, i) else Cell(size, i, size - 1)
  }

  /** Blue starts on the last row, Red on the first column. */
  predicate OnStartBorder(size: nat, p: Player, c: nat) {
    0 < size && c < Area(size) && (if p == BluePlayer then Row(size, c) == size - 1 else Col(size, c) == 0)
  }

  /** Blue aims for the first row, Red for the last column. */
  predicate OnEndBorder(size: nat, p: Player, c: nat) {
    0 < size && c < Area(size) && (if p == BluePlayer then Row(size, c) == 0 else Col(size, c) == size - 1)
  }

  /** Position of a border cell along its border: the column for Blue, the row for Red. */
  function BorderIndex(size: nat, p: Player, c: nat): nat
    requires 0 < size
  {
    if p == BluePlayer then Col(size, c) else Row(size, c)
  }

  lemma StartCellOnBorder(size: nat, p: Player, i: nat)
    requires 0 < size && i < size
    ensures OnStartBorder(size, p, StartCell(size, p, i))
    ensures BorderIndex(size, p, StartCell(size, p, i)) == i
  {
    if p == BluePlayer {
      CellCoords(size, size - 1, i);
      CellInRange(size, size - 1, i);
    } else {
      CellCoords(size, i, 0);
      CellInRange(size, i, 0);
    }
  }

  lemma EndCellOnBorder(size: nat, p: Player, i: nat)
    requires 0 < size && i < size
    ensures OnEndBorder(size, p, EndCell(size, p, i))
    ensures BorderIndex(size, p, EndCell(size, p, i)) == i
  {
    if p == BluePlayer {
      CellCoords(size, 0, i);
      CellInRange(size, 0, i);
    } else {
      CellCoords(size, i, size - 1);
      CellInRange(size, i, size - 1);
    }
  }

  lemma StartBorderCell(size: nat, p: Player, c: nat)
    requires OnStartBorder(size, p, c)
    ensures BorderIndex(size, p, c) < size && c == StartCell(size, p, BorderIndex(size, p, c))
  {
    CellSplit(size, c);
    RowInRange(size, c);
  }

  lemma EndBorderCell(size: nat, p: Player, c: nat)
    requires OnEndBorder(size, p, c)
    ensures BorderIndex(size, p, c) < size && c == EndCell(size, p, BorderIndex(size, p, c))
  {
    CellSplit(size, c);
    RowInRange(size, c);
  }

  /* ---------------------------------------------------------------------- */
  /* Start stack and goal set, as the source builds them                     */
  /* ---------------------------------------------------------------------- */

  /** The stack after the first `n` rounds of the set-up loop: start cells that are in the player's set. */
  function SeedStack(b: Board, p: Player, n: nat): seq<nat>
    requires 0 < b.size
  {
    if n == 0 then []
    else
      var c := StartCell(b.size, p, n - 1);
      SeedStack(b, p, n - 1) + (if c in PlayerSet(b, p) then [c] else [])
  }

  /** `end_nodes` after the first `n` rounds: goal cells that are in the player's set. */
  function EndNodes(b: Board, p: Player, n: nat): set<nat>
    requires 0 < b.size
  {
    if n == 0 then {}
    else
      var c := EndCell(b.size, p, n - 1);
      EndNodes(b, p, n - 1) + (if c in PlayerSet(b, p) then {c} else {})
  }

  /** The start stack holds the player's cells on the start border, up to position `n`. */
  lemma {:induction false} SeedStackMembers(b: Board, p: Player, n: nat, c: nat)
    requires 0 < b.size && n <= b.size
    ensures c in SeedStack(b, p, n) <==>
      c in PlayerSet(b, p) && OnStartBorder(b.size, p, c) && BorderIndex(b.size, p, c) < n
  {
    if n > 0 {
      SeedStackMembers(b, p, n - 1, c);
      StartCellOnBorder(b.size, p, n - 1);
      if OnStartBorder(b.size, p, c) {
        StartBorderCell(b.size, p, c);
      }
    }
  }

  /** The goal set holds the player's cells on the goal border, up to position `n`. */
  lemma {:induction false} EndNodesMembers(b: Board, p: Player, n: nat, c: nat)
    requires 0 < b.size && n <= b.size
    ensures c in EndNodes(b, p, n) <==>
      c in PlayerSet(b, p) && OnEndBorder(b.size, p, c) && BorderIndex(b.size, p, c) < n
  {
    if n > 0 {
      EndNodesMembers(b, p, n - 1, c);
      EndCellOnBorder(b.size, p, n - 1);
      if OnEndBorder(b.size, p, c) {
        EndBorderCell(b.size, p, c);
      }
    }
  }

  /* ---------------------------------------------------------------------- */
  /* The search                                                              */
  /* ---------------------------------------------------------------------- */

  /** What the search reads and never changes: the board side, the statuses, the goal set and the stone it follows. */
  datatype Ctx = Ctx(size: nat, cells: seq<Status>, ends: set<nat>, stone: Status)

  predicate CtxOk(x: Ctx) {
    0 < x.size && |x.cells| == Area(x.size)
  }

  /** Every entry of `s` is below `n`. */
  predicate Below(s: seq<nat>, n: nat) {
    forall k :: 0 <= k < |s| ==> s[k] < n
  }

  /** The neighbours of a cell are cells. */
  lemma NeighborsOf(x: Ctx, c: nat)
    requires CtxOk(x) && c < |x.cells|
    ensures Below(Neighbors(x.size, c), |x.cells|)
  {
    NeighborsInRange(x.size, c);
    forall k | 0 <= k < |Neighbors(x.size, c)|
      ensures Neighbors(x.size, c)[k] < |x.cells|
    {
      assert Neighbors(x.size, c)[k] in Neighbors(x.size, c);
    }
  }

  /** The inner loop either finds a goal cell or returns the grown stack and `queued` set. */
  datatype ScanResult = Hit | Pushed(stack: seq<nat>, queued: set<nat>)

  /**
   * The inner loop over the neighbour list `nbs` of the popped cell, from
   * position `j` on: a neighbour with the player's stone that is neither
   * visited nor queued ends the search if it is a goal cell and is pushed
   * and queued otherwise.
   */
  function Scan(x: Ctx, visited: set<nat>, nbs: seq<nat>, j: nat, stack: seq<nat>, queued: set<nat>): (r: ScanResult)
    requires j <= |nbs| && Below(nbs, |x.cells|) && Below(stack, |x.cells|)
    ensures r.Pushed? ==> Below(r.stack, |x.cells|) && queued <= r.queued
    ensures r.Pushed? ==> forall y :: y in r.queued && y !in queued ==> y < |x.cells| && y !in visited
    ensures r.Pushed? && r.queued == queued ==> r.stack == stack
    decreases |nbs| - j
  {
    if j == |nbs| then Pushed(stack, queued)
    else
      var n := nbs[j];
      if x.cells[n] == x.stone && n !in visited && n !in queued then
        if n in x.ends then Hit
        else Scan(x, visited, nbs, j + 1, stack + [n], queued + {n})
      else
        Scan(x, visited, nbs, j + 1, stack, queued)
  }

  /** The cell indices below `n`. */
  function RangeSet(n: nat): (r: set<nat>)
    ensures forall c: nat :: c in r <==> c < n
  {
    if n == 0 then {} else RangeSet(n - 1) + {n - 1}
  }

  /** One round of the outer loop: pop the top, mark it visited and no longer queued, scan its neighbours. */
  function Round(x: Ctx, stack: seq<nat>, visited: set<nat>, queued: set<nat>): (r: ScanResult)
    requires CtxOk(x) && Below(stack, |x.cells|) && |stack| > 0
    ensures r.Pushed? ==> Below(r.stack, |x.cells|)
    ensures r.Pushed? ==>
      RangeSet(|x.cells|) - (visited + {stack[|stack| - 1]} + r.queued) < RangeSet(|x.cells|) - (visited + queued) ||
      (visited + {stack[|stack| - 1]} + r.queued == visited + queued && |r.stack| < |stack|)
  {
    var top := stack[|stack| - 1];
    NeighborsOf(x, top);
    Scan(x, visited + {top}, Neighbors(x.size, top), 0, stack[..|stack| - 1], queued - {top})
  }

  /**
   * The outer loop. Each round either queues a cell that was neither
   * visited nor queued, or shrinks the stack.
   */
  function Search(x: Ctx, stack: seq<nat>, visited: set<nat>, queued: set<nat>): bool
    requires CtxOk(x) && Below(stack, |x.cells|)
    decreases RangeSet(|x.cells|) - (visited + queued), |stack|
  {
    if |stack| == 0 then false
    else
      match Round(x, stack, visited, queued)
      case Hit => true
      case Pushed(st, q) => Search(x, st, visited + {stack[|stack| - 1]}, q)
  }

  /** The search context of `check(p)`. */
  function CheckCtx(b: Board, p: Player): Ctx
    requires 0 < b.size
  {
    Ctx(b.size, b.cells, EndNodes(b, p, b.size), StoneOf(p))
  }

  /** Every start cell is a cell. */
  lemma SeedStackBelow(b: Board, p: Player)
    requires Wf(b)
    ensures Below(SeedStack(b, p, b.size), |b.cells|)
  {
    var s := SeedStack(b, p, b.size);
    forall k | 0 <= k < |s|
      ensures s[k] < |b.cells|
    {
      SeedStackMembers(b, p, b.size, s[k]);
    }
  }

  /** `check(p)`: no search unless there is a start cell and a goal cell in the player's set. */
  function Check(b: Board, p: Player): bool
    requires Wf(b)
  {
    var stack := SeedStack(b, p, b.size);
    if |stack| == 0 || |EndNodes(b, p, b.size)| == 0 then false
    else
      SeedStackBelow(b, p);
      Search(CheckCtx(b, p), stack, {}, {})
  }

  /* ---------------------------------------------------------------------- */
  /* Walks                                                                   */
  /* ---------------------------------------------------------------------- */

  /** The `k+1`-th cell of the path is a neighbour of the `k`-th. */
  predicate Step(size: nat, path: seq<nat>, k: nat)
    requires k + 1 < |path|
  {
    0 < size && path[k + 1] in Neighbors(size, path[k])
  }

  /**
   * A walk the search can follow: it begins at a start cell, and every
   * later cell is a neighbour of the one before and holds the stone.
   */
  predicate Walk(x: Ctx, starts: seq<nat>, path: seq<nat>) {
    && |path| > 0 && path[0] in starts
    && (forall k :: 0 < k < |path| ==> path[k] < |x.cells| && x.cells[path[k]] == x.stone)
    && (forall k: nat :: k + 1 < |path| ==> Step(x.size, path, k))
  }

  /** Some walk ends at `c`. */
  ghost predicate Reaches(x: Ctx, starts: seq<nat>, c: nat) {
    exists path :: Walk(x, starts, path) && path[|path| - 1] == c
  }

  /** Some walk ends in the goal set. */
  ghost predicate Wins(x: Ctx, starts: seq<nat>) {
    exists path :: Walk(x, starts, path) && path[|path| - 1] in x.ends
  }

  /** A walk extends by a neighbour of its last cell that holds the stone. */
  lemma WalkExtend(x: Ctx, starts: seq<nat>, path: seq<nat>, n: nat)
    requires Walk(x, starts, path) && 0 < x.size
    requires n < |x.cells| && x.cells[n] == x.stone && n in Neighbors(x.size, path[|path| - 1])
    ensures Walk(x, starts, path + [n]) && (path + [n])[|path|] == n
  {
    var p2 := path + [n];
    forall k | 0 < k < |p2|
      ensures p2[k] < |x.cells| && x.cells[p2[k]] == x.stone
    {
      if k < |path| {
        assert p2[k] == path[k];
      }
    }
    forall k: nat | k + 1 < |p2|
      ensures Step(x.size, p2, k)
    {
      if k + 1 < |path| {
        assert Step(x.size, path, k);
        assert p2[k + 1] == path[k + 1] && p2[k] == path[k];
      } else {
        assert p2[k] == path[|path| - 1] && p2[k + 1] == n;
      }
    }
  }

  /* ---------------------------------------------------------------------- */
  /* What one scan does                                                      */
  /* ---------------------------------------------------------------------- */

  /** A hit is a neighbour with the stone that is a goal cell. */
  lemma {:induction false} ScanHit(x: Ctx, visited: set<nat>, nbs: seq<nat>, j: nat, stack: seq<nat>, queued: set<nat>)
    requires j <= |nbs| && Below(nbs, |x.cells|) && Below(stack, |x.cells|)
    requires Scan(x, visited, nbs, j, stack, queued).Hit?
    ensures exists k :: j <= k < |nbs| && x.cells[nbs[k]] == x.stone && nbs[k] in x.ends
    decreases |nbs| - j
  {
    var n := nbs[j];
    if x.cells[n] == x.stone && n !in visited && n !in queued {
      if n in x.ends {
        assert x.cells[nbs[j]] == x.stone && nbs[j] in x.ends;
      } else {
        ScanHit(x, visited, nbs, j + 1, stack + [n], queued + {n});
      }
    } else {
      ScanHit(x, visited, nbs, j + 1, stack, queued);
    }
  }

  /** A scan only pushes: the old stack stays underneath. */
  lemma {:induction false} ScanKeeps(x: Ctx, visited: set<nat>, nbs: seq<nat>, j: nat, stack: seq<nat>, queued: set<nat>)
    requires j <= |nbs| && Below(nbs, |x.cells|) && Below(stack, |x.cells|)
    requires Scan(x, visited, nbs, j, stack, queued).Pushed?
    ensures var r := Scan(x, visited, nbs, j, stack, queued);
      |r.stack| >= |stack| && forall k :: 0 <= k < |stack| ==> r.stack[k] == stack[k]
    decreases |nbs| - j
  {
    if j < |nbs| {
      var n := nbs[j];
      if x.cells[n] == x.stone && n !in visited && n !in queued {
        ScanKeeps(x, visited, nbs, j + 1, stack + [n], queued + {n});
      } else {
        ScanKeeps(x, visited, nbs, j + 1, stack, queued);
      }
    }
  }

  /** Every pushed cell is a neighbour with the stone and not a goal cell. */
  lemma {:induction false} ScanPushes(x: Ctx, visited: set<nat>, nbs: seq<nat>, j: nat, stack: seq<nat>, queued: set<nat>)
    requires j <= |nbs| && Below(nbs, |x.cells|) && Below(stack, |x.cells|)
    requires Scan(x, visited, nbs, j, stack, queued).Pushed?
    ensures var r := Scan(x, visited, nbs, j, stack, queued);
      forall k :: |stack| <= k < |r.stack| ==>
        r.stack[k] in nbs && x.cells[r.stack[k]] == x.stone && r.stack[k] !in x.ends
    decreases |nbs| - j
  {
    if j < |nbs| {
      var n := nbs[j];
      var r := Scan(x, visited, nbs, j, stack, queued);
      if x.cells[n] == x.stone && n !in visited && n !in queued {
        ScanPushes(x, visited, nbs, j + 1, stack + [n], queued + {n});
        ScanKeeps(x, visited, nbs, j + 1, stack + [n], queued + {n});
        assert r.stack[|stack|] == (stack + [n])[|stack|];
      } else {
        ScanPushes(x, visited, nbs, j + 1, stack, queued);
      }
    }
  }

  /** Every queued cell after a scan was queued before or is on the stack. */
  lemma {:induction false} ScanQueued(x: Ctx, visited: set<nat>, nbs: seq<nat>, j: nat, stack: seq<nat>, queued: set<nat>)
    requires j <= |nbs| && Below(nbs, |x.cells|) && Below(stack, |x.cells|)
    requires Scan(x, visited, nbs, j, stack, queued).Pushed?
    ensures var r := Scan(x, visited, nbs, j, stack, queued);
      forall y :: y in r.queued ==> y in queued || y in r.stack
    decreases |nbs| - j
  {
    if j < |nbs| {
      var n := nbs[j];
      var r := Scan(x, visited, nbs, j, stack, queued);
      if x.cells[n] == x.stone && n !in visited && n !in queued {
        ScanQueued(x, visited, nbs, j + 1, stack + [n], queued + {n});
        ScanKeeps(x, visited, nbs, j + 1, stack + [n], queued + {n});
        assert r.stack[|stack|] == (stack + [n])[|stack|];
      } else {
        ScanQueued(x, visited, nbs, j + 1, stack, queued);
      }
    }
  }

  /** After a scan every neighbour from `j` on with the stone is visited or queued. */
  lemma {:induction false} ScanCovers(x: Ctx, visited: set<nat>, nbs: seq<nat>, j: nat, stack: seq<nat>, queued: set<nat>)
    requires j <= |nbs| && Below(nbs, |x.cells|) && Below(stack, |x.cells|)
    requires Scan(x, visited, nbs, j, stack, queued).Pushed?
    ensures var r := Scan(x, visited, nbs, j, stack, queued);
      forall k :: j <= k < |nbs| && x.cells[nbs[k]] == x.stone ==> nbs[k] in visited || nbs[k] in r.queued
    decreases |nbs| - j
  {
    if j < |nbs| {
      var n := nbs[j];
      if x.cells[n] == x.stone && n !in visited && n !in queued {
        ScanCovers(x, visited, nbs, j + 1, stack + [n], queued + {n});
      } else {
        ScanCovers(x, visited, nbs, j + 1, stack, queued);
      }
    }
  }

  /* ---------------------------------------------------------------------- */
  /* Soundness: a reported win has a walk                                    */
  /* ---------------------------------------------------------------------- */

  /** If every stacked cell is reached by a walk, a search that reports a win has a winning walk. */
  lemma {:induction false} SearchSound(x: Ctx, starts: seq<nat>, stack: seq<nat>, visited: set<nat>, queued: set<nat>)
    requires CtxOk(x) && Below(stack, |x.cells|)
    requires forall k :: 0 <= k < |stack| ==> Reaches(x, starts, stack[k])
    ensures Search(x, stack, visited, queued) ==> Wins(x, starts)
    decreases RangeSet(|x.cells|) - (visited + queued), |stack|
  {
    if |stack| > 0 {
      var top := stack[|stack| - 1];
      var rest := stack[..|stack| - 1];
      var v := visited + {top};
      var q := queued - {top};
      NeighborsOf(x, top);
      var nbs := Neighbors(x.size, top);
      assert Reaches(x, starts, stack[|stack| - 1]);
      var path :| Walk(x, starts, path) && path[|path| - 1] == top;
      match Round(x, stack, visited, queued)
      case Hit =>
        ScanHit(x, v, nbs, 0, rest, q);
        var k :| 0 <= k < |nbs| && x.cells[nbs[k]] == x.stone && nbs[k] in x.ends;
        WalkExtend(x, starts, path, nbs[k]);
      case Pushed(st, q2) =>
        ScanKeeps(x, v, nbs, 0, rest, q);
        ScanPushes(x, v, nbs, 0, rest, q);
        forall k | 0 <= k < |st|
          ensures Reaches(x, starts, st[k])
        {
          if k < |rest| {
            assert st[k] == stack[k];
          } else {
            WalkExtend(x, starts, path, st[k]);
          }
        }
        SearchSound(x, starts, st, v, q2);
    }
  }

  /* ---------------------------------------------------------------------- */
  /* Completeness: a winning walk is found                                   */
  /* ---------------------------------------------------------------------- */

  /**
   * What holds between two rounds of the outer loop: every start cell is
   * visited or stacked; no visited or stacked cell is a goal cell; queued
   * cells are stacked; and every neighbour with the stone of a visited cell
   * is visited or stacked.
   */
  predicate SearchInv(x: Ctx, starts: seq<nat>, stack: seq<nat>, visited: set<nat>, queued: set<nat>) {
    && CtxOk(x) && Below(stack, |x.cells|)
    && (forall s :: s in starts ==> s in visited || s in stack)
    && (forall c :: c in visited ==> c < |x.cells| && c !in x.ends)
    && (forall k :: 0 <= k < |stack| ==> stack[k] !in x.ends)
    && (forall c :: c in queued ==> c in stack)
    && (forall c, n :: c in visited && n in Neighbors(x.size, c) && n < |x.cells| && x.cells[n] == x.stone ==>
          n in visited || n in stack)
  }

  /** Walks from visited start cells through a closed visited set stay inside it. */
  lemma {:induction false} WalkInside(x: Ctx, starts: seq<nat>, visited: set<nat>, path: seq<nat>, k: nat)
    requires SearchInv(x, starts, [], visited, {}) && Walk(x, starts, path) && k < |path|
    ensures path[k] in visited
  {
    if k > 0 {
      WalkInside(x, starts, visited, path, k - 1);
      assert Step(x.size, path, k - 1);
    }
  }

  /** One round of the outer loop that does not hit keeps the invariant. */
  lemma SearchStep(x: Ctx, starts: seq<nat>, stack: seq<nat>, visited: set<nat>, queued: set<nat>)
    requires SearchInv(x, starts, stack, visited, queued) && |stack| > 0
    requires Round(x, stack, visited, queued).Pushed?
    ensures var r := Round(x, stack, visited, queued);
      SearchInv(x, starts, r.stack, visited + {stack[|stack| - 1]}, r.queued)
  {
    var top := stack[|stack| - 1];
    var rest := stack[..|stack| - 1];
    var v := visited + {top};
    var q := queued - {top};
    NeighborsOf(x, top);
    var nbs := Neighbors(x.size, top);
    var r := Scan(x, v, nbs, 0, rest, q);
    ScanKeeps(x, v, nbs, 0, rest, q);
    ScanPushes(x, v, nbs, 0, rest, q);
    ScanQueued(x, v, nbs, 0, rest, q);
    ScanCovers(x, v, nbs, 0, rest, q);
    var st := r.stack;
    assert forall c :: c in stack ==> c == top || c in st by {
      forall c | c in stack
        ensures c == top || c in st
      {
        var k :| 0 <= k < |stack| && stack[k] == c;
        if k < |rest| {
          assert st[k] == rest[k];
        }
      }
    }
    forall k | 0 <= k < |st|
      ensures st[k] !in x.ends
    {
      if k < |rest| {
        assert st[k] == stack[k];
      }
    }
    forall c, n | c in v && n in Neighbors(x.size, c) && n < |x.cells| && x.cells[n] == x.stone
      ensures n in v || n in st
    {
      if c == top {
        var k :| 0 <= k < |nbs| && nbs[k] == n;
      }
    }
    forall c | c in r.queued
      ensures c in st
    {
    }
  }

  /** Under the invariant, a search that reports no win leaves no walk to a goal cell. */
  lemma {:induction false} SearchComplete(x: Ctx, starts: seq<nat>, stack: seq<nat>, visited: set<nat>, queued: set<nat>)
    requires SearchInv(x, starts, stack, visited, queued)
    ensures !Search(x, stack, visited, queued) ==> !Wins(x, starts)
    decreases RangeSet(|x.cells|) - (visited + queued), |stack|
  {
    if |stack| == 0 {
      forall path | Walk(x, starts, path)
        ensures path[|path| - 1] !in x.ends
      {
        WalkInside(x, starts, visited, path, |path| - 1);
      }
    } else {
      var top := stack[|stack| - 1];
      var v := visited + {top};
      var q := queued - {top};
      NeighborsOf(x, top);
      var nbs := Neighbors(x.size, top);
      match Round(x, stack, visited, queued)
      case Hit =>
      case Pushed(st, q2) =>
        SearchStep(x, starts, stack, visited, queued);
        SearchComplete(x, starts, st, v, q2);
    }
  }

  /* ---------------------------------------------------------------------- */
  /* What `check` decides                                                    */
  /* ---------------------------------------------------------------------- */

  /** The start cells can open the search: each reaches itself and none is a goal cell. */
  lemma SeedsStart(b: Board, p: Player)
    requires Wf(b)
    ensures var seeds := SeedStack(b, p, b.size);
      Below(seeds, |b.cells|) &&
      SearchInv(CheckCtx(b, p), seeds, seeds, {}, {}) &&
      forall k :: 0 <= k < |seeds| ==> Reaches(CheckCtx(b, p), seeds, seeds[k])
  {
    var x := CheckCtx(b, p);
    var seeds := SeedStack(b, p, b.size);
    SeedStackBelow(b, p);
    forall k | 0 <= k < |seeds|
      ensures seeds[k] !in x.ends && Reaches(x, seeds, seeds[k])
    {
      SeedStackMembers(b, p, b.size, seeds[k]);
      EndNodesMembers(b, p, b.size, seeds[k]);
      assert Walk(x, seeds, [seeds[k]]) && [seeds[k]][0] == seeds[k];
    }
  }

  /** `check(p)` reports a win exactly when some walk from the start stack ends in the goal set. */
  lemma CheckFindsWalk(b: Board, p: Player)
    requires Wf(b)
    ensures Check(b, p) <==> Wins(CheckCtx(b, p), SeedStack(b, p, b.size))
  {
    var x := CheckCtx(b, p);
    var seeds := SeedStack(b, p, b.size);
    if |seeds| > 0 && |x.ends| > 0 {
      SeedsStart(b, p);
      SearchSound(x, seeds, seeds, {}, {});
      SearchComplete(x, seeds, seeds, {}, {});
    }
  }

  /**
   * A chain that makes `check(p)` succeed: it starts at a cell of the
   * player's set on the start border, ends at a cell of the set on the goal
   * border, and every cell after the first holds the player's stone and
   * neighbours the one before. The first cell's own status is never looked
   * at.
   */
  predicate Connects(b: Board, p: Player, path: seq<nat>) {
    && 0 < b.size && |path| > 0
    && path[0] in PlayerSet(b, p) && OnStartBorder(b.size, p, path[0])
    && path[|path| - 1] in PlayerSet(b, p) && OnEndBorder(b.size, p, path[|path| - 1])
    && (forall k :: 0 < k < |path| ==> path[k] < |b.cells| && b.cells[path[k]] == StoneOf(p))
    && (forall k: nat :: k + 1 < |path| ==> Step(b.size, path, k))
  }

  /** `check(p)` succeeds exactly when a connecting chain exists. */
  lemma CheckIff(b: Board, p: Player)
    requires Wf(b)
    ensures Check(b, p) <==> exists path :: Connects(b, p, path)
  {
    var x := CheckCtx(b, p);
    var seeds := SeedStack(b, p, b.size);
    CheckFindsWalk(b, p);
    if Check(b, p) {
      var path :| Walk(x, seeds, path) && path[|path| - 1] in x.ends;
      SeedStackMembers(b, p, b.size, path[0]);
      EndNodesMembers(b, p, b.size, path[|path| - 1]);
      assert Connects(b, p, path);
    }
    if path :| Connects(b, p, path) {
      StartBorderCell(b.size, p, path[0]);
      EndBorderCell(b.size, p, path[|path| - 1]);
      SeedStackMembers(b, p, b.size, path[0]);
      EndNodesMembers(b, p, b.size, path[|path| - 1]);
      assert Walk(x, seeds, path);
    }
  }

  /** A chain of the player's stones, all of them, from the start border to the goal border. */
  predicate StoneChain(b: Board, p: Player, path: seq<nat>) {
    && 0 < b.size && |path| > 0
    && OnStartBorder(b.size, p, path[0]) && OnEndBorder(b.size, p, path[|path| - 1])
    && (forall k :: 0 <= k < |path| ==> path[k] < |b.cells| && b.cells[path[k]] == StoneOf(p))
    && (forall k: nat :: k + 1 < |path| ==> Step(b.size, path, k))
  }

  /** Two boards with the same side and cells have the same stone chains. */
  lemma ChainsFollowCells(b: Board, b': Board, p: Player, path: seq<nat>)
    requires b.size == b'.size && b.cells == b'.cells
    ensures StoneChain(b, p, path) <==> StoneChain(b', p, path)
  {}

  /**
   * A chain of `p`'s stones whose two end cells are in `p`'s set makes
   * `check(p)` succeed, whatever else the sets hold.
   */
  lemma ChainWins(b: Board, p: Player, path: seq<nat>)
    requires Wf(b) && StoneChain(b, p, path)
    requires path[0] in PlayerSet(b, p) && path[|path| - 1] in PlayerSet(b, p)
    ensures Check(b, p)
  {
    CheckIff(b, p);
    assert Connects(b, p, path);
  }

  /** When the index sets agree with the cells, `check(p)` decides whether `p` has joined their borders. */
  lemma CheckConsistent(b: Board, p: Player)
    requires Wf(b) && Consistent(b)
    ensures Check(b, p) <==> exists path :: StoneChain(b, p, path)
  {
    CheckIff(b, p);
    if path :| Connects(b, p, path) {
      assert StoneChain(b, p, path);
    }
    if path :| StoneChain(b, p, path) {
      assert Connects(b, p, path);
    }
  }

  /** Nobody has won on a fresh board. */
  lemma NoWinOnNewBoard(size: nat, p: Player)
    requires ValidSize(size)
    ensures !Check(NewBoard(size), p)
  {
    var b := NewBoard(size);
    if Check(b, p) {
      SeedStackBelow(b, p);
      var seeds := SeedStack(b, p, b.size);
      SeedStackMembers(b, p, b.size, seeds[0]);
    }
  }

  /** `check(p)` fails when the player's set has no cell on the start border or none on the goal border. */
  lemma CheckNeedsBorders(b: Board, p: Player)
    requires Wf(b)
    ensures Check(b, p) ==> exists c :: c in PlayerSet(b, p) && OnStartBorder(b.size, p, c)
    ensures Check(b, p) ==> exists c :: c in PlayerSet(b, p) && OnEndBorder(b.size, p, c)
  {
    CheckIff(b, p);
    if Check(b, p) {
      var path :| Connects(b, p, path);
      var first, last := path[0], path[|path| - 1];
      assert first in PlayerSet(b, p) && OnStartBorder(b.size, p, first);
      assert last in PlayerSet(b, p) && OnEndBorder(b.size, p, last);
    }
  }
}
