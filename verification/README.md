# Hex board and weighted graph, modelled in Dafny

This project models two parts of a C++ coursework repository.

**The Hex game board (`part-b/hex.cpp`).**
- An `n x n` board of hexagonal cells. Each cell is empty, blue or red.
- Two index sets hold the blue cells and the red cells.
- A counter of occupied cells is an unsigned 32-bit value.
- A ledger records which cells a random completion filled.
- The operations modelled:
  - the constructor's neighbour lists;
  - the bounds, emptiness and legality tests;
  - `move` and `undo`;
  - `randomize` and `revertRandom`, the random fill of the empty cells and its reversal;
  - `clear`;
  - `check`, the depth-first search that decides whether a player has joined their two borders;
  - the candidate scan of `getAIMove`. It tries every legal cell, runs `N` random completions and keeps the first cell with the best win count.

**The weighted graph ADT (`part-a/week4/prim_minimum_spanning_tree.cpp`).**
- Each vertex keeps a `std::map` from neighbour id to `(to, cost)`.
- Each undirected edge is stored in both maps, and `numE` grows by 2 for it.
- The structural part of `Prim::run` is modelled too. It pops a least-cost queue entry. It attaches the popped target to the tree only when the target is new. It queues the target's edges to unvisited vertices.

## Modules

- `HexGrid` (`hex_grid.dfy`):
  - cell numbering `i * size + j`;
  - unsigned 32-bit arithmetic, with the wrap-around written out;
  - the neighbour list of every cell, in the order the constructor builds it.
- `HexBoard` (`hex_board.dfy`):
  - the board record and its invariants;
  - `isOOB`, `isEmpty`, `isLegal`, `move`, `undo`, `clear`;
  - the corrected `undo`.
- `HexRandom` (`hex_random.dfy`):
  - `randomize`, both branches;
  - a Fisher-Yates shuffle driven by a draw function;
  - `revertRandom`;
  - the completion and reversal theorems.
- `HexCheck` (`hex_check.dfy`):
  - `check` as a terminating search;
  - the theorem that it succeeds exactly when a connecting chain exists.
- `HexAI` (`hex_ai.dfy`): the `getAIMove` scan.
- `HexFindings` (`hex_findings.dfy`):
  - the `undo` defect;
  - a concrete board on which `check` reports a false win.
- `WeightedGraph` (`graph.dfy`): the graph ADT and its invariants.
- `PrimTree` (`prim.dfy`): the loop of `Prim::run`.

Randomness is a parameter.
- `randomize` takes the shuffled label sequence `w`. Its precondition says `w` is a permutation of the labels the source would shuffle.
- `getAIMove` takes `draws(i)(j)(k)`, which drives step `k` of the shuffle of trial `j` of candidate `i`.

## Behaviour of the code worth noting

- **Neighbour order.** For a cell in an upper row, the constructor pushes the down-left neighbour before the down neighbour (`part-b/hex.cpp:144-148`). `HexGrid.NeighborsAt` keeps that order. The order changes only the order of the search in `check`, not its answer.
- **`undo` and the index sets.** `undo` sets the cell to `EMPTY` before it tests the cell's colour (`part-b/hex.cpp:256-269`). The index therefore stays in the player's set. `HexBoard.Undo` follows the code; see Findings.
- **One revert per candidate.** `getAIMove` calls `randomize` `N` times and `revertRandom` once, after the last trial (`part-b/hex.cpp:446-457`). From the second call on, `randomize` reshuffles the labels of the cells the first call filled. `HexAI.Trials` follows the code. `HexRandom.ReshuffleCompletes` shows that every trial board is still a completion of the candidate's board.

## Model

| member | source | states |
|---|---|---|
| HexGrid.Pred32 | part-b/hex.cpp:256-269 | `occupied--` on an unsigned counter: one less, and `0` wraps to `2^32 - 1` |
| HexGrid.Succ32 | part-b/hex.cpp:233-253 | `occupied++` on an unsigned counter: one more, and `2^32 - 1` wraps to `0` |
| HexGrid.Neighbors | part-b/hex.cpp:129-155 | a cell has at most six neighbours |
| HexGrid.NeighborsCharacterized | part-b/hex.cpp:129-155 | cell `(i2,j2)` is in the list of `(i,j)` exactly when it is hex-adjacent: same row one column away, the row above in the same or the next column, or the row below in the same or the previous column |
| HexGrid.NeighborsSymmetric | part-b/hex.cpp:129-155 | every neighbour relation the constructor builds holds in both directions |
| HexGrid.NeighborsIrreflexive | part-b/hex.cpp:129-155 | no cell is its own neighbour |
| HexGrid.NeighborsInRange | part-b/hex.cpp:129-155 | every listed neighbour is a cell of the board |
| HexBoard.NewBoard | part-b/hex.cpp:113-155 | a new board has every cell empty, both index sets empty, a zero counter, an empty ledger and `last == BLUE`; it is consistent and counted |
| HexBoard.IsOOB | part-b/hex.cpp:170-172 | out of bounds exactly when `x` or `y` is outside `1..size`; `x - 1 >= 0` always holds for unsigned `x` |
| HexBoard.CellIndex | part-b/hex.cpp:175-177 | `(x-1)*size + (y-1)` is a cell whose row is `x-1` and whose column is `y-1` |
| HexBoard.IsLegal | part-b/hex.cpp:180-182 | legal exactly when `(x,y)` is on the board and its cell is empty |
| HexBoard.LegalDependsOnCells | part-b/hex.cpp:175-182 | legality reads the cells only, not the index sets or the counter |
| HexBoard.Move | part-b/hex.cpp:233-253 | a legal move puts the player's stone on the cell, adds the index to the player's set only, leaves every other cell, increments the counter, clears the ledger and records the player; an illegal move changes nothing |
| HexBoard.MovePreserves | part-b/hex.cpp:233-253 | `move` keeps the counter equal to the stone count and keeps the index sets equal to the coloured cells |
| HexBoard.MoveCovered | part-b/hex.cpp:233-253 | `move` keeps every stone of each player in that player's set, also on a board whose sets hold stale indices |
| HexBoard.Undo | part-b/hex.cpp:256-269 | as written: an occupied cell becomes empty and the counter drops by one; the index sets and `last` never change; an empty or off-board cell changes nothing |
| HexBoard.UndoPreservesCounted | part-b/hex.cpp:256-269 | `undo` keeps the counter equal to the stone count |
| HexBoard.MoveUndoRoundTrip | part-b/hex.cpp:233-269 | `move` then `undo` restores the cells and the counter, but the cell's index stays in the mover's set |
| HexBoard.MoveUndoIntendedRoundTrip | part-b/hex.cpp:256-269 | with the intended `undo`, `move` then `undo` restores the cells, both index sets and the counter, and keeps them consistent |
| HexBoard.Clear | part-b/hex.cpp:347-355 | every cell is empty, both sets and the ledger are empty, the counter is 0, and the board is consistent and counted |
| HexRandom.Shuffle | part-b/hex.cpp:291 | the shuffled sequence is a permutation of its input |
| HexRandom.Randomize | part-b/hex.cpp:272-330 | the counter becomes `size*size`; on a fresh ledger, the ledger lists the empty cells in increasing order and is padded with zeros to `freeHexes`; a ledger that is not empty is kept |
| HexRandom.RandomizeFresh | part-b/hex.cpp:277-307 | the `k`-th empty cell gets the `k`-th shuffled label; occupied cells keep their stones; the board is full and counted; each set gains exactly the filled cells of its colour |
| HexRandom.RandomizeFreshShares | part-b/hex.cpp:279-292 | Blue gets `freeHexes / 2` of the free cells and Red the rest, with the odd one going to the player who did not move last |
| HexRandom.RandomizeFreshConsistent | part-b/hex.cpp:277-307 | filling the empty cells keeps the index sets equal to the coloured cells |
| HexRandom.RandomizeReshuffle | part-b/hex.cpp:309-326 | a second call permutes the labels of the ledger cells only: cells outside the ledger and their set membership are unchanged, and with a duplicate-free ledger the ledger labels become the shuffled sequence |
| HexRandom.RandomizeReshuffleFull | part-b/hex.cpp:309-329 | a reshuffle of a full board leaves it full and counted, and keeps it consistent |
| HexRandom.RevertRandom | part-b/hex.cpp:333-344 | the size, `last` and the ledger itself are unchanged (the ledger is not cleared) |
| HexRandom.RevertRestores | part-b/hex.cpp:333-344 | after any number of random completions of a board, one revert restores its cells and counter, and on consistent boards its index sets |
| HexRandom.RandomizeRevertRoundTrip | part-b/hex.cpp:272-344 | `randomize` then `revertRandom` gives back the cells and counter, and the index sets when they were consistent |
| HexCheck.SeedStackMembers | part-b/hex.cpp:377-390 | the search is seeded with exactly the cells of the player's set on the start border (last row for Blue, first column for Red) |
| HexCheck.EndNodesMembers | part-b/hex.cpp:377-390 | the goal set is exactly the cells of the player's set on the goal border (first row for Blue, last column for Red) |
| HexCheck.SearchSound | part-b/hex.cpp:396-414 | when the search succeeds, some walk of the player's stones from a seed reaches a goal cell |
| HexCheck.SearchComplete | part-b/hex.cpp:396-414 | when the search fails, no such walk exists |
| HexCheck.CheckFindsWalk | part-b/hex.cpp:371-418 | `check` holds exactly when a stone walk from a seed reaches a goal cell |
| HexCheck.CheckIff | part-b/hex.cpp:371-418 | `check` holds exactly when there is a chain from a start-border member of the set, through neighbouring stones, to a goal-border member of the set |
| HexCheck.CheckConsistent | part-b/hex.cpp:371-418 | on a consistent board, `check` holds exactly when a chain of the player's stones joins the two borders |
| HexCheck.ChainWins | part-b/hex.cpp:371-418 | a chain of the player's stones across the two borders whose end cells are in the player's set makes `check` succeed, whatever else the sets hold |
| HexCheck.CheckNeedsBorders | part-b/hex.cpp:395 | `check` fails unless the set has a cell on each of the player's borders |
| HexCheck.NoWinOnNewBoard | part-b/hex.cpp:371-418 | nobody has won on a new board |
| HexAI.Trials | part-b/hex.cpp:446-450 | every trial board is a completion of the board with the candidate's stone and keeps its stones and their set membership; the win count is at most the number of trials, and equals it when that board already holds a chain of `p`'s stones whose end cells are in `p`'s set |
| HexAI.Evaluate | part-b/hex.cpp:442-459 | one candidate's move, trials, revert and undo give back the cells and counter, and no stone of `p` leaves `p`'s set; its win count is at most `N` |
| HexAI.EvaluateSureWin | part-b/hex.cpp:445-450 | when `p`'s set holds all of `p`'s stones and the candidate's stone completes a chain of `p`'s stones across `p`'s borders, `check(p)` holds after every `randomize`, so the count is `N` |
| HexAI.GetAIMove | part-b/hex.cpp:432-461 | exactly the empty cells are evaluated, in row-major order; the chosen cell is legal and is the first with the strictly highest count; `x, y` stay as passed when every count is 0; the cells and counter are restored; when `p`'s set holds all of `p`'s stones, every empty cell whose stone would complete `p`'s chain scores `N`, and the best count is `N` |
| HexAI.GetAIMoveSeesSureWin | part-b/hex.cpp:432-461 | on a consistent board, a cell where `p`'s stone would join `p`'s borders scores all `N` trials and `N` is the best count |
| HexFindings.UndoBreaksConsistency | part-b/hex.cpp:256-269 | after `move` and the as-written `undo`, an empty cell is left in the mover's set |
| HexFindings.StaleSeedWin | part-b/hex.cpp:377-390 | on a 3x3 board, Blue trying `(3,1)` and taking it back leaves the cells unchanged, yet `check(BLUE)` turns true with no blue chain on the board |
| HexFindings.IntendedUndoKeepsCheck | part-b/hex.cpp:256-269 | with the intended `undo`, trying a move and taking it back leaves every answer of `check` unchanged |
| HexFindings.IntendedNoStaleWin | part-b/hex.cpp:256-269 | with the intended `undo`, the same try-and-take-back gives no Blue win |
| WeightedGraph.EmptyGraph | part-a/week4/prim_minimum_spanning_tree.cpp:62-67 | `Graph()` has no vertices and no edges and meets every invariant |
| WeightedGraph.NewGraph | part-a/week4/prim_minimum_spanning_tree.cpp:69-79 | `Graph(n)` has `max(n, 0)` vertices, each with an empty map, and `E() == 0`; it is shaped, symmetric and counted |
| WeightedGraph.AddVertex | part-a/week4/prim_minimum_spanning_tree.cpp:99-104 | `V()` grows by one, `E()` is unchanged, the new node's id is the old `V()` and its map is empty |
| WeightedGraph.AddVertexCounted | part-a/week4/prim_minimum_spanning_tree.cpp:99-104 | adding a vertex keeps `numE` equal to the map entries plus self-loops |
| WeightedGraph.GetVertices | part-a/week4/prim_minimum_spanning_tree.cpp:106-112 | on a well-shaped graph the vertex list is `0, 1, ..., V()-1` |
| WeightedGraph.Neighbors | part-a/week4/prim_minimum_spanning_tree.cpp:118-124 | the list is strictly increasing, and on a well-shaped graph holds exactly the `y` with `adjacent(x, y)` |
| WeightedGraph.AddEdge | part-a/week4/prim_minimum_spanning_tree.cpp:126-134 | an existing edge is left alone; otherwise on a symmetric graph both directions appear with cost `c`, `E()` grows by 2, and no other map changes |
| WeightedGraph.AddEdgeValid | part-a/week4/prim_minimum_spanning_tree.cpp:126-134 | `addEdge` keeps every stored edge's `to` equal to its key and in range |
| WeightedGraph.AddEdgeSymmetric | part-a/week4/prim_minimum_spanning_tree.cpp:126-134 | `addEdge` keeps every edge stored in both directions with equal costs |
| WeightedGraph.AddEdgeCounted | part-a/week4/prim_minimum_spanning_tree.cpp:126-134 | `addEdge` keeps `numE` equal to the map entries plus self-loops |
| WeightedGraph.RemoveEdge | part-a/week4/prim_minimum_spanning_tree.cpp:136-143 | a missing edge is a no-op; otherwise both directions disappear, `getEdgeCost` returns the `INT_MAX` sentinel both ways, `E()` drops by 2, and no other map changes |
| WeightedGraph.RemoveEdgeValid | part-a/week4/prim_minimum_spanning_tree.cpp:136-143 | `removeEdge` keeps the graph well shaped |
| WeightedGraph.RemoveEdgeSymmetric | part-a/week4/prim_minimum_spanning_tree.cpp:136-143 | `removeEdge` keeps the graph symmetric |
| WeightedGraph.RemoveEdgeCounted | part-a/week4/prim_minimum_spanning_tree.cpp:136-143 | `removeEdge` on a symmetric graph keeps `numE` equal to the map entries plus self-loops |
| WeightedGraph.SetEdgeCost | part-a/week4/prim_minimum_spanning_tree.cpp:157-164 | only an existing edge is changed: on a symmetric graph both directions get cost `c`, the keys of every map and `E()` are unchanged, and other maps are untouched |
| WeightedGraph.SetEdgeCostSymmetric | part-a/week4/prim_minimum_spanning_tree.cpp:157-164 | `setEdgeCost` keeps the graph symmetric |
| WeightedGraph.SetEdgeCostValid | part-a/week4/prim_minimum_spanning_tree.cpp:157-164 | `setEdgeCost` keeps the graph well shaped |
| WeightedGraph.SetEdgeCostCounted | part-a/week4/prim_minimum_spanning_tree.cpp:157-164 | `setEdgeCost` keeps the edge counter right |
| WeightedGraph.AddRemoveRoundTrip | part-a/week4/prim_minimum_spanning_tree.cpp:126-143 | adding an absent edge and removing it gives back the same graph |
| WeightedGraph.RemoveAddRoundTrip | part-a/week4/prim_minimum_spanning_tree.cpp:126-156 | removing an edge and adding it back at its old `getEdgeCost` gives back the same graph |
| WeightedGraph.EdgeCountNoLoops | part-a/week4/prim_minimum_spanning_tree.cpp:166-172 | without self-loops, `E()` is the total number of map entries |
| WeightedGraph.SelfLoopCount | part-a/week4/prim_minimum_spanning_tree.cpp:126-134 | a self-loop adds 2 to `E()` but only one map entry |
| PrimTree.MinIndex | part-a/week4/prim_minimum_spanning_tree.cpp:211-219 | the popped entry has the least cost in the queue (the reversed `operator<` makes the heap a min-heap) |
| PrimTree.Fresh | part-a/week4/prim_minimum_spanning_tree.cpp:527-535 | the queued entries are exactly the edges of the popped vertex to unvisited targets, with their costs |
| PrimTree.StepProgress | part-a/week4/prim_minimum_spanning_tree.cpp:517-541 | each pass visits a new vertex or takes away a queue entry whose target is already visited, so the loop ends |
| PrimTree.StepInv | part-a/week4/prim_minimum_spanning_tree.cpp:519-536 | one pass keeps the tree, queue and frontier invariants |
| PrimTree.Loop | part-a/week4/prim_minimum_spanning_tree.cpp:517-541 | the loop ends with every vertex visited or the queue empty, with the invariants intact |
| PrimTree.Run | part-a/week4/prim_minimum_spanning_tree.cpp:503-541 | `MST.V() == V()`; `MST.E() == 2 * (visited - 1)`; every tree edge is an edge of the graph with its cost, between distinct visited vertices; each visited vertex after the source has exactly one tree neighbour visited before it, so the tree has no cycle; no edge of the graph leaves the visited set |

## Left out

- Printing, the game loop (`Play`, `playTurn`, `getHumanMove`, `printAIConf`), `main`, and reading a graph from a file (`Graph(std::fstream&)`). These are I/O.
- `printGraph` and `printAdjMatrix` are left out as I/O.
- The Dijkstra and Monte-Carlo classes of the graph file are not part of this model.
- The `Hex` cell objects, their pointers and the destructor are replaced by a sequence of statuses and sets of indices. Memory ownership is not modelled.
- `std::random_device`, `std::mt19937` and `std::shuffle` are replaced by the label sequence `w` or by the draw function. Which permutation a real seed produces is not modelled.
- HexAI.GetAIMove: win rates `wins / N` are `double`s. The model compares the integer win counts instead, which order the candidates the same way for a fixed `N`. With `N = 0` the source divides 0 by 0; the NaN never beats `gwins`, and a count of 0 never beats a best of 0 either.
- HexAI.GetAIMove: the member `gwins` is kept only as the scan's `best`; its value after the call is not modelled.
- Board sizes are limited to `3..46340`. Loops over the cells use `int` counters compared with `size * size` (`part-b/hex.cpp:131`, `295`, `437`), which overflow once `size * size` exceeds `2^31 - 1`. `main` clamps the size to at least 3.
- HexRandom.Randomize: it requires, on an empty ledger, that the counter leave at least as many free cells as there are empty cells. Otherwise the fill loop reads `v[c]` past the end of `v` (`part-b/hex.cpp:295-305`), which is undefined behaviour. Every caller keeps the board counted, and then the requirement holds (`HexAI.TrialStep`).
- WeightedGraph: `numV` and `numE` are `int` in the source. Their overflow past `2^31 - 1` is not modelled.
- WeightedGraph: costs are `real`, not `double`. `INT_MAX` is the real 2147483647.
- WeightedGraph: every graph operation requires its vertex arguments to be vertices. The source indexes `adjList` without a check, so other arguments are undefined behaviour.
- WeightedGraph.AddEdge: the effects are stated for symmetric graphs. That covers every graph the public operations can build.
- WeightedGraph.SetEdgeCost: the effects are stated for symmetric graphs. On a graph where `x` maps to `y` but `y` does not map to `x`, the source's `operator[]` inserts a default edge. The function models that, but no contract describes it.
- `getEdges` and `adjacent` are the plain lookups `Edges` and `Adjacent`. `getEdgeCost` is the lookup `GetEdgeCost`. Their behaviour is stated through the update contracts that use them.
- PrimTree.Run: it requires the source vertex to have an edge unless it is the only vertex. Otherwise the first `pq.top()` reads an empty queue, which is undefined behaviour.
- PrimTree.Run: the accumulated `MSTCost` is computed but no property of it is proved.
- PrimTree.Run: minimality of the tree's cost is not proved; only its shape is.
- PrimTree.MinIndex: `std::priority_queue` breaks ties between equal costs by its heap layout. The model takes the earliest queued entry among the cheapest. The shape properties hold for any choice.
- PrimTree: the state also keeps `order`, the order in which vertices were visited. The source does not store it. It is there to state the tree's shape.
- HexBoard.Undo: the model follows the code as written. The corrected behaviour is `HexBoard.UndoIntended`; see Findings.

## Findings

| source | as written | input that shows it | evidently intended | confidence | as-written member | corrected member |
|---|---|---|---|---|---|---|
| part-b/hex.cpp:256-269 | `undo` sets the cell to `EMPTY` before it compares the cell with the player's colour. Neither comparison can succeed, so the index stays in the player's set and `last` is not reset. `check` seeds its search from that set (lines 377-390), so the empty cell can start a winning chain. | A 3x3 board with Blue stones at `(1,1)` and `(2,1)`. Blue plays `(3,1)` and `undo` takes it back, as `getAIMove` does for every candidate. `check(BLUE)` was false before. It is now true along cells 6, 3, 0, although no blue stone is on the last row. | `undo` removes the index from the player's set: test the colour first, then empty the cell. | high (not executed) | HexFindings.StaleSeedWin | HexFindings.IntendedNoStaleWin |
