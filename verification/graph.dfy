/**
 * The undirected weighted graph of the Prim program: a vector of nodes,
 * each with an ordered map from neighbour id to edge, plus the counters
 * `numV` and `numE`. An undirected edge is stored once in each endpoint's
 * map and counts 2 in `numE`. Costs are only stored and read back, so they
 * are kept as exact `real` values.
 */
module WeightedGraph {

  /** `INT_MAX` as a cost: what `getEdgeCost` returns for a missing edge. */
  const IntMax: real := 2147483647.0

  datatype Edge = Edge(to: int, cost: real)
  datatype Node = Node(n: int, edges: map<int, Edge>)
  datatype Graph = Graph(numV: int, numE: int, adjList: seq<Node>)

  /** `adjList[x]` exists. */
  predicate IsVertex(g: Graph, x: int) {
    0 <= x < |g.adjList|
  }

  /** The edge map of vertex `x`. */
  function Edges(g: Graph, x: int): map<int, Edge>
    requires IsVertex(g, x)
  {
    g.adjList[x].edges
  }

  /** `adjacent(x, y)`: `y` is a key of `x`'s map. */
  predicate Adjacent(g: Graph, x: int, y: int)
    requires IsVertex(g, x)
  {
    y in Edges(g, x)
  }

  /* ---------------------------------------------------------------------- */
  /* Invariants                                                              */
  /* ---------------------------------------------------------------------- */

  /** `numV` counts the nodes, node `i` has id `i`, and every edge names a vertex as its `to`. */
  ghost predicate Valid(g: Graph) {
    && g.numV == |g.adjList|
    && (forall i :: 0 <= i < |g.adjList| ==> g.adjList[i].n == i)
    && (forall i, y :: 0 <= i < |g.adjList| && Adjacent(g, i, y) ==>
          0 <= y < |g.adjList| && Edges(g, i)[y].to == y)
  }

  /** Every edge is stored in both directions with the same cost. */
  ghost predicate Symmetric(g: Graph) {
    forall x, y :: 0 <= x < |g.adjList| && Adjacent(g, x, y) ==>
      0 <= y < |g.adjList| && Adjacent(g, y, x) && Edges(g, y)[x].cost == Edges(g, x)[y].cost
  }

  /** Number of map entries in the first `n` nodes. */
  function Entries(ns: seq<Node>, n: nat): nat
    requires n <= |ns|
  {
    if n == 0 then 0 else Entries(ns, n - 1) + |ns[n - 1].edges|
  }

  /** Number of self-loops among the first `n` nodes. */
  function Loops(ns: seq<Node>, n: nat): nat
    requires n <= |ns|
  {
    if n == 0 then 0 else Loops(ns, n - 1) + (if n - 1 in ns[n - 1].edges then 1 else 0)
  }

  /**
   * `numE` is the number of map entries plus the number of self-loops: an
   * edge between two vertices has two entries, a self-loop one entry but
   * it is counted 2 all the same.
   */
  predicate Counted(g: Graph) {
    g.numE == Entries(g.adjList, |g.adjList|) + Loops(g.adjList, |g.adjList|)
  }

  /** Changing one node changes the entry count by that node's difference only. */
  lemma {:induction false} EntriesUpdate(ns: seq<Node>, ns': seq<Node>, n: nat, x: nat)
    requires |ns'| == |ns| && n <= |ns| && x < |ns|
    requires forall i :: 0 <= i < |ns| && i != x ==> ns'[i] == ns[i]
    ensures Entries(ns', n) + (if x < n then |ns[x].edges| else 0) ==
            Entries(ns, n) + (if x < n then |ns'[x].edges| else 0)
  {
    if n > 0 {
      EntriesUpdate(ns, ns', n - 1, x);
    }
  }

  /** Changing one node changes the self-loop count by that node's difference only. */
  lemma {:induction false} LoopsUpdate(ns: seq<Node>, ns': seq<Node>, n: nat, x: nat)
    requires |ns'| == |ns| && n <= |ns| && x < |ns|
    requires forall i :: 0 <= i < |ns| && i != x ==> ns'[i] == ns[i]
    ensures Loops(ns', n) + (if x < n && x in ns[x].edges then 1 else 0) ==
            Loops(ns, n) + (if x < n && x in ns'[x].edges then 1 else 0)
  {
    if n > 0 {
      LoopsUpdate(ns, ns', n - 1, x);
    }
  }

  /** One more key in a map adds one entry. */
  lemma InsertSize(m: map<int, Edge>, k: int, e: Edge)
    requires k !in m
    ensures |m[k := e]| == |m| + 1
  {
    assert m[k := e].Keys == m.Keys + {k};
  }

  /** One key fewer in a map takes one entry away. */
  lemma EraseSize(m: map<int, Edge>, k: int)
    requires k in m
    ensures |m - {k}| == |m| - 1
  {
    assert (m - {k}).Keys == m.Keys - {k};
  }

  /* ---------------------------------------------------------------------- */
  /* Construction                                                            */
  /* ---------------------------------------------------------------------- */

  /** `Graph()`: no vertices, no edges. */
  function EmptyGraph(): (g: Graph)
    ensures Valid(g) && Symmetric(g) && Counted(g) && V(g) == 0 && E(g) == 0
  {
    Graph(0, 0, [])
  }

  /** `addVertex`: append a node whose id is the old vertex count, with no edges. */
  function AddVertex(g: Graph): (r: Graph)
    ensures V(r) == V(g) + 1 && E(r) == E(g) && |r.adjList| == |g.adjList| + 1
    ensures forall i :: 0 <= i < |g.adjList| ==> r.adjList[i] == g.adjList[i]
    ensures r.adjList[|g.adjList|].n == V(g) && Edges(r, |g.adjList|) == map[]
  {
    Graph(g.numV + 1, g.numE, g.adjList + [Node(g.numV, map[])])
  }

  /** `addVertex` keeps the shape. */
  lemma AddVertexValid(g: Graph)
    requires Valid(g)
    ensures Valid(AddVertex(g))
  {
    var r := AddVertex(g);
    forall i, y | 0 <= i < |r.adjList| && Adjacent(r, i, y)
      ensures 0 <= y < |r.adjList| && Edges(r, i)[y].to == y
    {
      assert i < |g.adjList| && r.adjList[i] == g.adjList[i] && Adjacent(g, i, y);
    }
  }

  /** `addVertex` keeps the edges symmetric. */
  lemma AddVertexSymmetric(g: Graph)
    requires Symmetric(g)
    ensures Symmetric(AddVertex(g))
  {
    var r := AddVertex(g);
    forall x, y | 0 <= x < |r.adjList| && Adjacent(r, x, y)
      ensures 0 <= y < |r.adjList| && Adjacent(r, y, x)
      ensures Edges(r, y)[x].cost == Edges(r, x)[y].cost
    {
      assert x < |g.adjList| && r.adjList[x] == g.adjList[x] && Adjacent(g, x, y);
      assert r.adjList[y] == g.adjList[y];
    }
  }

  /** `addVertex` keeps the edge counter right. */
  lemma AddVertexCounted(g: Graph)
    requires Counted(g)
    ensures Counted(AddVertex(g))
  {
    var r := AddVertex(g);
    assert r.adjList[..|g.adjList|] == g.adjList;
    EntriesAppend(g.adjList, r.adjList, |g.adjList|);
    LoopsAppend(g.adjList, r.adjList, |g.adjList|);
  }

  /** Appending a node leaves the counts over the old nodes alone. */
  lemma {:induction false} EntriesAppend(ns: seq<Node>, ns': seq<Node>, n: nat)
    requires n <= |ns| <= |ns'| && ns'[..|ns|] == ns
    ensures Entries(ns', n) == Entries(ns, n)
  {
    if n > 0 {
      assert ns'[n - 1] == ns'[..|ns|][n - 1];
      EntriesAppend(ns, ns', n - 1);
    }
  }

  lemma {:induction false} LoopsAppend(ns: seq<Node>, ns': seq<Node>, n: nat)
    requires n <= |ns| <= |ns'| && ns'[..|ns|] == ns
    ensures Loops(ns', n) == Loops(ns, n)
  {
    if n > 0 {
      assert ns'[n - 1] == ns'[..|ns|][n - 1];
      LoopsAppend(ns, ns', n - 1);
    }
  }

  /** `Graph(n)`: `addVertex` called `n` times; a negative `n` adds nothing. */
  function NewGraph(n: int): (g: Graph)
    ensures Valid(g) && Symmetric(g) && Counted(g)
    ensures V(g) == (if n < 0 then 0 else n) && E(g) == 0
    ensures forall x :: 0 <= x < V(g) ==> Edges(g, x) == map[]
    decreases n
  {
    if n <= 0 then EmptyGraph()
    else
      var g0 := NewGraph(n - 1);
      AddVertexValid(g0);
      AddVertexSymmetric(g0);
      AddVertexCounted(g0);
      var g := AddVertex(g0);
      forall x | 0 <= x < V(g)
        ensures Edges(g, x) == map[]
      {
        if x < |g0.adjList| {
          assert g.adjList[x] == g0.adjList[x] && Edges(g0, x) == map[];
        } else {
          assert x == |g0.adjList|;
        }
      }
      g
  }

  /** `getVertices`: the node ids in order. */
  function GetVertices(g: Graph): (vs: seq<int>)
    ensures |vs| == |g.adjList|
    ensures Valid(g) ==> forall i :: 0 <= i < |vs| ==> vs[i] == i
  {
    seq(|g.adjList|, i requires 0 <= i < |g.adjList| => g.adjList[i].n)
  }

  /** `V()`. */
  function V(g: Graph): int {
    g.numV
  }

  /** `E()`. */
  function E(g: Graph): int {
    g.numE
  }

  /* ---------------------------------------------------------------------- */
  /* Queries                                                                 */
  /* ---------------------------------------------------------------------- */

  /** The members of `s` in `[lo, hi)`, in increasing order. */
  function KeysFrom(s: set<int>, lo: int, hi: int): (r: seq<int>)
    ensures forall y :: y in r <==> y in s && lo <= y < hi
    ensures forall k, l :: 0 <= k < l < |r| ==> r[k] < r[l]
    ensures forall k :: 0 <= k < |r| ==> lo <= r[k]
    decreases hi - lo
  {
    if lo >= hi then []
    else (if lo in s then [lo] else []) + KeysFrom(s, lo + 1, hi)
  }

  /**
   * `neighbors(x)`: the keys of `x`'s map in increasing order, as an
   * iteration over `std::map` gives them. Every key is a vertex, so the
   * keys are the members of `[0, V())`.
   */
  function Neighbors(g: Graph, x: int): (r: seq<int>)
    requires IsVertex(g, x)
    ensures forall k, l :: 0 <= k < l < |r| ==> r[k] < r[l]
    ensures Valid(g) ==> forall y :: y in r <==> Adjacent(g, x, y)
  {
    KeysFrom(Edges(g, x).Keys, 0, |g.adjList|)
  }

  /** `getEdgeCost(x, y)`: the stored cost, or `INT_MAX` when there is no edge. */
  function GetEdgeCost(g: Graph, x: int, y: int): real
    requires IsVertex(g, x)
  {
    if y in Edges(g, x) then Edges(g, x)[y].cost else IntMax
  }

  /* ---------------------------------------------------------------------- */
  /* Updates                                                                 */
  /* ---------------------------------------------------------------------- */

  /** `std::map::insert`: nothing happens when the key is already there. */
  function Insert(m: map<int, Edge>, k: int, e: Edge): map<int, Edge> {
    if k in m then m else m[k := e]
  }

  /** Replace the edge map of vertex `x`. */
  function SetEdges(g: Graph, x: int, m: map<int, Edge>): (r: Graph)
    requires IsVertex(g, x)
    ensures |r.adjList| == |g.adjList| && r.numV == g.numV && r.numE == g.numE
    ensures Edges(r, x) == m && r.adjList[x].n == g.adjList[x].n
    ensures forall i :: 0 <= i < |g.adjList| && i != x ==> r.adjList[i] == g.adjList[i]
  {
    g.(adjList := g.adjList[x := g.adjList[x].(edges := m)])
  }

  /**
   * `addEdge(x, y, c)`: when `y` is not yet a neighbour of `x`, insert
   * `y -> (y, c)` into `x`'s map and `x -> (x, c)` into `y`'s map, and add
   * 2 to `numE`.
   */
  function AddEdge(g: Graph, x: int, y: int, c: real): (r: Graph)
    requires IsVertex(g, x) && IsVertex(g, y)
    ensures |r.adjList| == |g.adjList| && V(r) == V(g)
    ensures Adjacent(g, x, y) ==> r == g
    ensures !Adjacent(g, x, y) && Symmetric(g) ==>
      && Adjacent(r, x, y) && Adjacent(r, y, x)
      && GetEdgeCost(r, x, y) == c && GetEdgeCost(r, y, x) == c
      && E(r) == E(g) + 2
      && Edges(r, x) == Edges(g, x)[y := Edge(y, c)]
      && Edges(r, y) == Edges(g, y)[x := Edge(x, c)]
      && (forall a :: IsVertex(g, a) && a != x && a != y ==> Edges(r, a) == Edges(g, a))
  {
    if y in Edges(g, x) then g
    else
      var g1 := SetEdges(g, x, Insert(Edges(g, x), y, Edge(y, c)));
      var g2 := SetEdges(g1, y, Insert(Edges(g1, y), x, Edge(x, c)));
      g2.(numE := g.numE + 2)
  }

  /**
   * `removeEdge(x, y)`: when `y` is a neighbour of `x`, erase `y` from
   * `x`'s map and `x` from `y`'s map, and take 2 from `numE`.
   */
  function RemoveEdge(g: Graph, x: int, y: int): (r: Graph)
    requires IsVertex(g, x) && IsVertex(g, y)
    ensures |r.adjList| == |g.adjList| && V(r) == V(g)
    ensures !Adjacent(g, x, y) ==> r == g
    ensures Adjacent(g, x, y) ==>
      && !Adjacent(r, x, y) && !Adjacent(r, y, x)
      && GetEdgeCost(r, x, y) == IntMax && GetEdgeCost(r, y, x) == IntMax
      && E(r) == E(g) - 2
      && Edges(r, x) == Edges(g, x) - {y} - (if x == y then {x} else {})
      && Edges(r, y) == Edges(g, y) - {x} - (if x == y then {y} else {})
      && (forall a :: IsVertex(g, a) && a != x && a != y ==> Edges(r, a) == Edges(g, a))
  {
    if y !in Edges(g, x) then g
    else
      var g1 := SetEdges(g, x, Edges(g, x) - {y});
      var g2 := SetEdges(g1, y, Edges(g1, y) - {x});
      g2.(numE := g.numE - 2)
  }

  /**
   * `setEdgeCost(x, y, c)`: when `y` is a neighbour of `x`, set the cost of
   * both directions. The second write goes through `operator[]`, which
   * would insert a default edge `(0, 0)` if `x` were missing from `y`'s map.
   */
  function SetEdgeCost(g: Graph, x: int, y: int, c: real): (r: Graph)
    requires IsVertex(g, x) && IsVertex(g, y)
    ensures |r.adjList| == |g.adjList| && V(r) == V(g) && E(r) == E(g)
    ensures !Adjacent(g, x, y) ==> r == g
    ensures Adjacent(g, x, y) && Symmetric(g) ==>
      && GetEdgeCost(r, x, y) == c && GetEdgeCost(r, y, x) == c
      && Edges(r, x).Keys == Edges(g, x).Keys && Edges(r, y).Keys == Edges(g, y).Keys
      && (forall a :: IsVertex(g, a) && a != x && a != y ==> Edges(r, a) == Edges(g, a))
  {
    if y !in Edges(g, x) then g
    else
      var g1 := SetEdges(g, x, Edges(g, x)[y := Edges(g, x)[y].(cost := c)]);
      var e := if x in Edges(g1, y) then Edges(g1, y)[x] else Edge(0, 0.0);
      SetEdges(g1, y, Edges(g1, y)[x := e.(cost := c)])
  }

  /* ---------------------------------------------------------------------- */
  /* Invariants kept by the updates                                          */
  /* ---------------------------------------------------------------------- */

  /** `addEdge` keeps the shape. */
  lemma AddEdgeValid(g: Graph, x: int, y: int, c: real)
    requires Valid(g) && IsVertex(g, x) && IsVertex(g, y)
    ensures Valid(AddEdge(g, x, y, c))
  {
    var r := AddEdge(g, x, y, c);
    if !Adjacent(g, x, y) {
      forall i, z | 0 <= i < |r.adjList| && Adjacent(r, i, z)
        ensures 0 <= z < |r.adjList| && Edges(r, i)[z].to == z
      {
        if (i == x && z == y) || (i == y && z == x) {
        } else {
          assert Adjacent(g, i, z);
        }
      }
    }
  }

  /** `addEdge` keeps the edges symmetric. */
  lemma AddEdgeSymmetric(g: Graph, x: int, y: int, c: real)
    requires Symmetric(g) && IsVertex(g, x) && IsVertex(g, y)
    ensures Symmetric(AddEdge(g, x, y, c))
  {
    var r := AddEdge(g, x, y, c);
    if !Adjacent(g, x, y) {
      forall i, z | 0 <= i < |r.adjList| && Adjacent(r, i, z)
        ensures 0 <= z < |r.adjList| && Adjacent(r, z, i) && Edges(r, z)[i].cost == Edges(r, i)[z].cost
      {
        if (i == x && z == y) || (i == y && z == x) {
        } else {
          assert Adjacent(g, i, z);
        }
      }
    }
  }

  /** `addEdge` keeps the edge counter right. */
  lemma AddEdgeCounted(g: Graph, x: int, y: int, c: real)
    requires Symmetric(g) && Counted(g) && IsVertex(g, x) && IsVertex(g, y)
    ensures Counted(AddEdge(g, x, y, c))
  {
    if !Adjacent(g, x, y) {
      var n := |g.adjList|;
      var g1 := SetEdges(g, x, Insert(Edges(g, x), y, Edge(y, c)));
      var g2 := SetEdges(g1, y, Insert(Edges(g1, y), x, Edge(x, c)));
      InsertSize(Edges(g, x), y, Edge(y, c));
      EntriesUpdate(g.adjList, g1.adjList, n, x);
      LoopsUpdate(g.adjList, g1.adjList, n, x);
      EntriesUpdate(g1.adjList, g2.adjList, n, y);
      LoopsUpdate(g1.adjList, g2.adjList, n, y);
      if x != y {
        assert !Adjacent(g, y, x);
        InsertSize(Edges(g1, y), x, Edge(x, c));
      }
    }
  }

  /** `removeEdge` keeps the shape. */
  lemma RemoveEdgeValid(g: Graph, x: int, y: int)
    requires Valid(g) && IsVertex(g, x) && IsVertex(g, y)
    ensures Valid(RemoveEdge(g, x, y))
  {
    var r := RemoveEdge(g, x, y);
    forall i, z | 0 <= i < |r.adjList| && Adjacent(r, i, z)
      ensures 0 <= z < |r.adjList| && Edges(r, i)[z].to == z
    {
      assert Adjacent(g, i, z);
    }
  }

  /** `removeEdge` keeps the edges symmetric. */
  lemma RemoveEdgeSymmetric(g: Graph, x: int, y: int)
    requires Symmetric(g) && IsVertex(g, x) && IsVertex(g, y)
    ensures Symmetric(RemoveEdge(g, x, y))
  {
    var r := RemoveEdge(g, x, y);
    forall i, z | 0 <= i < |r.adjList| && Adjacent(r, i, z)
      ensures 0 <= z < |r.adjList| && Adjacent(r, z, i) && Edges(r, z)[i].cost == Edges(r, i)[z].cost
    {
      assert Adjacent(g, i, z);
    }
  }

  /** `removeEdge` keeps the edge counter right. */
  lemma RemoveEdgeCounted(g: Graph, x: int, y: int)
    requires Symmetric(g) && Counted(g) && IsVertex(g, x) && IsVertex(g, y)
    ensures Counted(RemoveEdge(g, x, y))
  {
    if Adjacent(g, x, y) {
      if x == y {
        RemoveLoopCounted(g, x);
      } else {
        assert Adjacent(g, y, x);
        RemovePairCounted(g, x, y);
      }
    }
  }

  lemma RemoveLoopCounted(g: Graph, x: int)
    requires Counted(g) && IsVertex(g, x) && Adjacent(g, x, x)
    ensures Counted(RemoveEdge(g, x, x))
  {
    var m := Edges(g, x) - {x};
    var g1 := SetEdges(g, x, m);
    assert Edges(g1, x) - {x} == m;
    assert RemoveEdge(g, x, x) == SetEdges(g1, x, m).(numE := g.numE - 2);
    EraseSize(Edges(g, x), x);
    SetEdgesCount(g, x, m);
    SetEdgesCount(g1, x, m);
  }

  lemma RemovePairCounted(g: Graph, x: int, y: int)
    requires Counted(g) && IsVertex(g, x) && IsVertex(g, y) && x != y
    requires Adjacent(g, x, y) && Adjacent(g, y, x)
    ensures Counted(RemoveEdge(g, x, y))
  {
    var m1 := Edges(g, x) - {y};
    var g1 := SetEdges(g, x, m1);
    var m2 := Edges(g1, y) - {x};
    assert Edges(g1, y) == Edges(g, y);
    assert RemoveEdge(g, x, y) == SetEdges(g1, y, m2).(numE := g.numE - 2);
    EraseSize(Edges(g, x), y);
    EraseSize(Edges(g1, y), x);
    assert (x in m1) == (x in Edges(g, x));
    assert (y in m2) == (y in Edges(g1, y));
    SetEdgesCount(g, x, m1);
    SetEdgesCount(g1, y, m2);
  }

  /** Replacing one edge map changes the counts by that map's difference only. */
  lemma SetEdgesCount(g: Graph, x: int, m: map<int, Edge>)
    requires IsVertex(g, x)
    ensures var r := SetEdges(g, x, m);
      && Entries(r.adjList, |r.adjList|) + |Edges(g, x)| == Entries(g.adjList, |g.adjList|) + |m|
      && Loops(r.adjList, |r.adjList|) + (if x in Edges(g, x) then 1 else 0) ==
         Loops(g.adjList, |g.adjList|) + (if x in m then 1 else 0)
  {
    var r := SetEdges(g, x, m);
    EntriesUpdate(g.adjList, r.adjList, |g.adjList|, x);
    LoopsUpdate(g.adjList, r.adjList, |g.adjList|, x);
  }

  /** `setEdgeCost` on a symmetric graph changes costs only: the keys of every map stay. */
  lemma SetEdgeCostKeys(g: Graph, x: int, y: int, c: real)
    requires Symmetric(g) && IsVertex(g, x) && IsVertex(g, y)
    ensures var r := SetEdgeCost(g, x, y, c);
      forall i :: 0 <= i < |g.adjList| ==> Edges(r, i).Keys == Edges(g, i).Keys
  {
    if Adjacent(g, x, y) {
      assert Adjacent(g, y, x);
    }
  }

  /** `setEdgeCost` on a symmetric graph keeps it symmetric. */
  lemma SetEdgeCostSymmetric(g: Graph, x: int, y: int, c: real)
    requires Symmetric(g) && IsVertex(g, x) && IsVertex(g, y)
    ensures Symmetric(SetEdgeCost(g, x, y, c))
  {
    var r := SetEdgeCost(g, x, y, c);
    if Adjacent(g, x, y) {
      SetEdgeCostKeys(g, x, y, c);
      forall i, z | 0 <= i < |r.adjList| && Adjacent(r, i, z)
        ensures 0 <= z < |r.adjList| && Adjacent(r, z, i) && Edges(r, z)[i].cost == Edges(r, i)[z].cost
      {
        assert Edges(r, i).Keys == Edges(g, i).Keys;
        assert Adjacent(g, i, z);
        assert Edges(r, z).Keys == Edges(g, z).Keys;
      }
    }
  }

  /** `setEdgeCost` on a symmetric graph keeps the shape. */
  lemma SetEdgeCostValid(g: Graph, x: int, y: int, c: real)
    requires Valid(g) && Symmetric(g) && IsVertex(g, x) && IsVertex(g, y)
    ensures Valid(SetEdgeCost(g, x, y, c))
  {
    var r := SetEdgeCost(g, x, y, c);
    if Adjacent(g, x, y) {
      assert Adjacent(g, y, x);
      forall i, z | 0 <= i < |r.adjList| && Adjacent(r, i, z)
        ensures 0 <= z < |r.adjList| && Edges(r, i)[z].to == z
      {
        assert Adjacent(g, i, z);
      }
    }
  }

  /** `setEdgeCost` on a symmetric graph keeps the edge counter right. */
  lemma SetEdgeCostCounted(g: Graph, x: int, y: int, c: real)
    requires Symmetric(g) && Counted(g) && IsVertex(g, x) && IsVertex(g, y)
    ensures Counted(SetEdgeCost(g, x, y, c))
  {
    SetEdgeCostKeys(g, x, y, c);
    SameKeysCounted(g, SetEdgeCost(g, x, y, c));
  }

  /** Graphs whose maps have the same keys have the same entry and self-loop counts. */
  lemma SameKeysCounted(g: Graph, r: Graph)
    requires |r.adjList| == |g.adjList|
    requires forall i :: 0 <= i < |g.adjList| ==> Edges(r, i).Keys == Edges(g, i).Keys
    ensures Entries(r.adjList, |r.adjList|) == Entries(g.adjList, |g.adjList|)
    ensures Loops(r.adjList, |r.adjList|) == Loops(g.adjList, |g.adjList|)
  {
    forall i | 0 <= i < |g.adjList|
      ensures r.adjList[i].edges.Keys == g.adjList[i].edges.Keys
    {
      assert Edges(r, i).Keys == Edges(g, i).Keys;
    }
    SameKeysPrefix(g.adjList, r.adjList, |g.adjList|);
  }

  lemma {:induction false} SameKeysPrefix(ns: seq<Node>, ms: seq<Node>, n: nat)
    requires n <= |ns| == |ms|
    requires forall i :: 0 <= i < |ns| ==> ms[i].edges.Keys == ns[i].edges.Keys
    ensures Entries(ms, n) == Entries(ns, n) && Loops(ms, n) == Loops(ns, n)
  {
    if n > 0 {
      SameKeysPrefix(ns, ms, n - 1);
      assert |ms[n - 1].edges| == |ms[n - 1].edges.Keys| == |ns[n - 1].edges.Keys| == |ns[n - 1].edges|;
    }
  }

  /* ---------------------------------------------------------------------- */
  /* Round trips and the edge count                                          */
  /* ---------------------------------------------------------------------- */

  /** `addEdge` then `removeEdge` on a pair that was not adjacent gives back the graph. */
  lemma AddRemoveRoundTrip(g: Graph, x: int, y: int, c: real)
    requires Symmetric(g) && IsVertex(g, x) && IsVertex(g, y) && !Adjacent(g, x, y)
    ensures RemoveEdge(AddEdge(g, x, y, c), x, y) == g
  {
    var r := RemoveEdge(AddEdge(g, x, y, c), x, y);
    assert !Adjacent(g, y, x);
    assert Edges(r, x) == Edges(g, x);
    assert Edges(r, y) == Edges(g, y);
    assert r.adjList == g.adjList;
  }

  /** `removeEdge` then `addEdge` with the old cost on an adjacent pair gives back the graph. */
  lemma RemoveAddRoundTrip(g: Graph, x: int, y: int)
    requires Valid(g) && Symmetric(g) && IsVertex(g, x) && IsVertex(g, y) && Adjacent(g, x, y)
    ensures AddEdge(RemoveEdge(g, x, y), x, y, GetEdgeCost(g, x, y)) == g
  {
    var c := GetEdgeCost(g, x, y);
    var m := RemoveEdge(g, x, y);
    RemoveEdgeSymmetric(g, x, y);
    var r := AddEdge(m, x, y, c);
    assert Adjacent(g, y, x);
    assert Edges(r, x) == Edges(g, x);
    assert Edges(r, y) == Edges(g, y);
    assert r.adjList == g.adjList;
  }

  /** Without self-loops, `E()` is the total size of the edge maps. */
  lemma EdgeCountNoLoops(g: Graph)
    requires Counted(g)
    requires forall x :: 0 <= x < |g.adjList| ==> !Adjacent(g, x, x)
    ensures E(g) == Entries(g.adjList, |g.adjList|)
  {
    NoLoops(g, |g.adjList|);
  }

  lemma {:induction false} NoLoops(g: Graph, n: nat)
    requires n <= |g.adjList|
    requires forall x :: 0 <= x < |g.adjList| ==> !Adjacent(g, x, x)
    ensures Loops(g.adjList, n) == 0
  {
    if n > 0 {
      NoLoops(g, n - 1);
      assert !Adjacent(g, n - 1, n - 1);
    }
  }

  /** A self-loop adds 2 to `E()` but a single map entry. */
  lemma SelfLoopCount(g: Graph, x: int, c: real)
    requires Symmetric(g) && Counted(g) && IsVertex(g, x) && !Adjacent(g, x, x)
    ensures var r := AddEdge(g, x, x, c);
      && E(r) == E(g) + 2
      && Entries(r.adjList, |r.adjList|) == Entries(g.adjList, |g.adjList|) + 1
  {
    var r := AddEdge(g, x, x, c);
    InsertSize(Edges(g, x), x, Edge(x, c));
    EntriesUpdate(g.adjList, r.adjList, |g.adjList|, x);
  }
}
