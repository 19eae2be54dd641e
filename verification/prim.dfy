/**
 * The structural part of `Prim::run`. A priority queue of candidate edges
 * is popped one entry at a time; an entry whose target has not been visited
 * yet becomes an edge of the tree; the popped target's edges to unvisited
 * vertices are queued and the target is marked visited. The loop stops once
 * every vertex is visited or the queue runs empty.
 *
 * What is proved: the loop terminates, the tree has `2 * (|visited| - 1)`
 * directed entries, every tree edge is an edge of the input with its cost,
 * every visited vertex after the source has exactly one tree neighbour that
 * was visited before it (so the tree is connected and has no cycle), and on
 * exit no edge of the input leaves the visited set.
 */
module PrimTree {
  import opened WeightedGraph

  /** A queue entry: the edge `from -> to` with its cost. */
  datatype Info = Info(from: int, to: int, dist: real)

  /**
   * The state of `run`: the queue, the visited set, the tree, its cost, and
   * the order in which vertices entered the visited set (a trace that
   * `run` does not keep, used to state the tree's shape).
   */
  datatype Prim = Prim(pq: seq<Info>, visited: set<int>, mst: Graph, cost: real, order: seq<int>)

  /* ---------------------------------------------------------------------- */
  /* The queue                                                               */
  /* ---------------------------------------------------------------------- */

  /**
   * The position of the entry `pop` takes: one of least cost. Ties, which
   * the heap breaks by its layout, go to the earliest position here.
   */
  function MinIndex(pq: seq<Info>, n: nat): (k: nat)
    requires 0 < n <= |pq|
    ensures k < n
    ensures forall i :: 0 <= i < n ==> pq[k].dist <= pq[i].dist
  {
    if n == 1 then 0
    else
      var k := MinIndex(pq, n - 1);
      if pq[n - 1].dist < pq[k].dist then n - 1 else k
  }

  /** The queue without the entry at position `k`. */
  function Remove(pq: seq<Info>, k: nat): (r: seq<Info>)
    requires k < |pq|
    ensures |r| == |pq| - 1
    ensures forall e :: e in r ==> e in pq
    ensures forall e :: e in pq && e != pq[k] ==> e in r
  {
    assert pq == pq[..k] + [pq[k]] + pq[k + 1..];
    pq[..k] + pq[k + 1..]
  }

  /** The entries `curr -> y` for the targets `ys` outside `visited`, in order. */
  function Fresh(g: Graph, curr: int, ys: seq<int>, visited: set<int>): (r: seq<Info>)
    requires IsVertex(g, curr)
    requires forall y :: y in ys ==> Adjacent(g, curr, y)
    ensures forall e :: e in r ==>
      && e.from == curr && e.to in ys && e.to !in visited && Adjacent(g, curr, e.to)
      && e.dist == Edges(g, curr)[e.to].cost
    ensures forall y :: y in ys && y !in visited && Adjacent(g, curr, y) ==> Info(curr, y, Edges(g, curr)[y].cost) in r
  {
    if |ys| == 0 then []
    else
      assert ys[0] in ys && Adjacent(g, curr, ys[0]);
      var rest := Fresh(g, curr, ys[1..], visited);
      assert forall y :: y in ys[1..] ==> y in ys;
      assert forall y :: y in ys ==> y == ys[0] || y in ys[1..];
      if ys[0] in visited then rest
      else [Info(curr, ys[0], Edges(g, curr)[ys[0]].cost)] + rest
  }

  /** The number of entries whose target is already visited. */
  function Stale(pq: seq<Info>, visited: set<int>): nat {
    if |pq| == 0 then 0
    else Stale(pq[..|pq| - 1], visited) + (if pq[|pq| - 1].to in visited then 1 else 0)
  }

  lemma {:induction false} StaleConcat(a: seq<Info>, b: seq<Info>, visited: set<int>)
    ensures Stale(a + b, visited) == Stale(a, visited) + Stale(b, visited)
    decreases |b|
  {
    if |b| > 0 {
      var b' := b[..|b| - 1];
      assert (a + b)[..|a + b| - 1] == a + b';
      StaleConcat(a, b', visited);
    } else {
      assert a + b == a;
    }
  }

  /** Taking an entry out lowers the stale count by that entry's share. */
  lemma StaleRemove(pq: seq<Info>, k: nat, visited: set<int>)
    requires k < |pq|
    ensures Stale(Remove(pq, k), visited) + (if pq[k].to in visited then 1 else 0) == Stale(pq, visited)
  {
    assert pq == pq[..k] + ([pq[k]] + pq[k + 1..]);
    StaleConcat(pq[..k], [pq[k]] + pq[k + 1..], visited);
    StaleConcat([pq[k]], pq[k + 1..], visited);
    StaleConcat(pq[..k], pq[k + 1..], visited);
    assert [pq[k]][..0] == [];
  }

  /** Entries whose targets are all unvisited add nothing stale. */
  lemma {:induction false} StaleNone(pq: seq<Info>, visited: set<int>)
    requires forall e :: e in pq ==> e.to !in visited
    ensures Stale(pq, visited) == 0
  {
    if |pq| > 0 {
      assert forall e :: e in pq[..|pq| - 1] ==> e in pq;
      StaleNone(pq[..|pq| - 1], visited);
      assert pq[|pq| - 1] in pq;
    }
  }

  /* ---------------------------------------------------------------------- */
  /* The invariant                                                           */
  /* ---------------------------------------------------------------------- */

  /** An entry is an edge of `g` with its cost, leaving a visited vertex. */
  ghost predicate QueueOk(g: Graph, visited: set<int>, pq: seq<Info>) {
    forall e :: e in pq ==>
      IsVertex(g, e.from) && e.from in visited && Adjacent(g, e.from, e.to) &&
      e.dist == Edges(g, e.from)[e.to].cost
  }

  /** Every member of `order` is a vertex below `n`, and none appears twice. */
  predicate Distinct(n: int, order: seq<int>) {
    && (forall k :: 0 <= k < |order| ==> 0 <= order[k] < n)
    && (forall k, l :: 0 <= k < l < |order| ==> order[k] != order[l])
  }

  /** How many of `order[..j]` are tree neighbours of `order[k]`. */
  function Earlier(mst: Graph, order: seq<int>, k: nat, j: nat): nat
    requires Distinct(|mst.adjList|, order) && k < |order| && j <= |order|
  {
    if j == 0 then 0
    else Earlier(mst, order, k, j - 1) + (if Adjacent(mst, order[k], order[j - 1]) then 1 else 0)
  }

  /**
   * The tree: a graph on the vertices of `g` whose every edge is an edge of
   * `g` with its cost between two visited vertices, with two entries per
   * visited vertex after the first, and where each visited vertex after
   * the first has exactly one neighbour visited before it.
   */
  ghost predicate TreeOk(g: Graph, source: int, st: Prim) {
    && Valid(st.mst) && Symmetric(st.mst) && Counted(st.mst)
    && |st.mst.adjList| == |g.adjList|
    && |st.order| > 0 && st.order[0] == source
    && Distinct(|g.adjList|, st.order)
    && (forall v :: v in st.visited <==> v in st.order)
    && TreeEdges(g, st.mst, st.visited)
    && E(st.mst) == 2 * (|st.visited| - 1)
    && (forall k :: 1 <= k < |st.order| ==> Earlier(st.mst, st.order, k, k) == 1)
  }

  /** Every tree edge is an edge of `g` with its cost, between two distinct visited vertices. */
  ghost predicate TreeEdges(g: Graph, mst: Graph, visited: set<int>)
    requires |mst.adjList| == |g.adjList|
  {
    forall x, y :: 0 <= x < |mst.adjList| && Adjacent(mst, x, y) ==>
      && x in visited && y in visited && x != y
      && Adjacent(g, x, y) && Edges(mst, x)[y].cost == Edges(g, x)[y].cost
  }

  /** Every edge from a visited vertex to an unvisited one waits in the queue. */
  ghost predicate Frontier(g: Graph, visited: set<int>, pq: seq<Info>) {
    forall x, y :: 0 <= x < |g.adjList| && x in visited && Adjacent(g, x, y) && y !in visited ==>
      Info(x, y, Edges(g, x)[y].cost) in pq
  }

  ghost predicate Inv(g: Graph, source: int, st: Prim) {
    TreeOk(g, source, st) && QueueOk(g, st.visited, st.pq) && Frontier(g, st.visited, st.pq)
  }

  /* ---------------------------------------------------------------------- */
  /* One pop                                                                 */
  /* ---------------------------------------------------------------------- */

  /** A set of vertices below `n` has at most `n` members. */
  lemma {:induction false} BoundedSize(s: set<int>, n: nat)
    requires forall v :: v in s ==> 0 <= v < n
    ensures |s| <= n
  {
    if n > 0 {
      var s' := s - {n - 1};
      BoundedSize(s', n - 1);
      assert s <= s' + {n - 1};
    } else {
      assert forall v :: v !in s;
      assert s == {};
    }
  }

  /** One iteration of the loop body, before the emptiness test. */
  function Step(g: Graph, st: Prim): (r: Prim)
    requires Valid(g) && |st.pq| > 0 && QueueOk(g, st.visited, st.pq)
    requires |st.mst.adjList| == |g.adjList| && Symmetric(st.mst)
  {
    var k := MinIndex(st.pq, |st.pq|);
    var top := st.pq[k];
    assert top in st.pq;
    var pq := Remove(st.pq, k) + Fresh(g, top.to, Neighbors(g, top.to), st.visited);
    if top.to in st.visited then
      Prim(pq, st.visited + {top.to}, st.mst, st.cost, st.order)
    else
      Prim(pq, st.visited + {top.to}, AddEdge(st.mst, top.from, top.to, top.dist), st.cost + top.dist,
           st.order + [top.to])
  }

  /** After a pop the queue still holds only edges of `g` leaving visited vertices. */
  lemma PopQueue(g: Graph, visited: set<int>, pq: seq<Info>, k: nat)
    requires Valid(g) && k < |pq| && QueueOk(g, visited, pq)
    ensures pq[k] in pq && IsVertex(g, pq[k].to)
    ensures QueueOk(g, visited + {pq[k].to},
      Remove(pq, k) + Fresh(g, pq[k].to, Neighbors(g, pq[k].to), visited))
  {
    var t := pq[k].to;
    assert pq[k] in pq;
    var pushed := Fresh(g, t, Neighbors(g, t), visited);
    forall e | e in Remove(pq, k) + pushed
      ensures IsVertex(g, e.from) && e.from in visited + {t} && Adjacent(g, e.from, e.to)
      ensures e.dist == Edges(g, e.from)[e.to].cost
    {
      if e in Remove(pq, k) {
        assert e in pq;
      } else {
        assert e in pushed;
      }
    }
  }

  /** After a pop every edge leaving the visited set still waits in the queue. */
  lemma PopFrontier(g: Graph, visited: set<int>, pq: seq<Info>, k: nat)
    requires Valid(g) && k < |pq| && QueueOk(g, visited, pq) && Frontier(g, visited, pq)
    ensures pq[k] in pq && IsVertex(g, pq[k].to)
    ensures Frontier(g, visited + {pq[k].to},
      Remove(pq, k) + Fresh(g, pq[k].to, Neighbors(g, pq[k].to), visited))
  {
    var t := pq[k].to;
    assert pq[k] in pq;
    var pushed := Fresh(g, t, Neighbors(g, t), visited);
    var pq' := Remove(pq, k) + pushed;
    forall x, y | 0 <= x < |g.adjList| && x in visited + {t} && Adjacent(g, x, y) && y !in visited + {t}
      ensures Info(x, y, Edges(g, x)[y].cost) in pq'
    {
      var e := Info(x, y, Edges(g, x)[y].cost);
      if x == t {
        assert y in Neighbors(g, t);
        assert e in pushed;
      } else {
        assert e in pq && e != pq[k];
        assert e in Remove(pq, k);
      }
    }
  }

  /** The number of tree neighbours among a prefix does not change when the new edge avoids both ends. */
  lemma {:induction false} EarlierAway(mst: Graph, m': Graph, order: seq<int>, order': seq<int>, t: int, k: nat, j: nat)
    requires Distinct(|mst.adjList|, order) && Distinct(|m'.adjList|, order') && |m'.adjList| == |mst.adjList|
    requires order' == order + [t] && t !in order
    requires forall a, b :: 0 <= a < |mst.adjList| && a != t && b != t ==> (Adjacent(m', a, b) <==> Adjacent(mst, a, b))
    requires k < |order| && j <= |order|
    ensures Earlier(m', order', k, j) == Earlier(mst, order, k, j)
  {
    if j > 0 {
      EarlierAway(mst, m', order, order', t, k, j - 1);
      assert order[k] in order && order[j - 1] in order;
    }
  }

  /** The new vertex has exactly one tree neighbour before it: the vertex it was attached to. */
  lemma {:induction false} EarlierNew(m': Graph, order': seq<int>, t: int, f: int, j: nat)
    requires Distinct(|m'.adjList|, order') && |order'| > 0 && order'[|order'| - 1] == t
    requires j < |order'|
    requires forall b :: Adjacent(m', t, b) <==> b == f
    ensures Earlier(m', order', |order'| - 1, j) == (if f in order'[..j] then 1 else 0)
  {
    if j > 0 {
      EarlierNew(m', order', t, f, j - 1);
      assert order'[..j] == order'[..j - 1] + [order'[j - 1]];
      if order'[j - 1] == f {
        assert f !in order'[..j - 1];
      }
    }
  }

  /** Before it is attached, an unvisited vertex has no tree edge. */
  lemma NoEdgesOutside(g: Graph, mst: Graph, visited: set<int>, t: int)
    requires |mst.adjList| == |g.adjList| && Symmetric(mst) && TreeEdges(g, mst, visited)
    requires IsVertex(mst, t) && t !in visited
    ensures forall b :: !Adjacent(mst, t, b)
  {}

  /** The tree edges after attaching `t` to `f`. */
  lemma AttachEdges(g: Graph, mst: Graph, visited: set<int>, f: int, t: int, c: real)
    requires Valid(g) && Symmetric(g) && |mst.adjList| == |g.adjList| && Symmetric(mst)
    requires TreeEdges(g, mst, visited)
    requires IsVertex(g, f) && f in visited && Adjacent(g, f, t) && c == Edges(g, f)[t].cost
    requires IsVertex(g, t) && t !in visited
    ensures !Adjacent(mst, f, t)
    ensures TreeEdges(g, AddEdge(mst, f, t, c), visited + {t})
    ensures forall b :: Adjacent(AddEdge(mst, f, t, c), t, b) <==> b == f
    ensures forall a, b :: 0 <= a < |mst.adjList| && a != t && b != t ==>
      (Adjacent(AddEdge(mst, f, t, c), a, b) <==> Adjacent(mst, a, b))
  {
    NoEdgesOutside(g, mst, visited, t);
    var m' := AddEdge(mst, f, t, c);
    forall x, y | 0 <= x < |m'.adjList| && Adjacent(m', x, y)
      ensures x in visited + {t} && y in visited + {t} && x != y
      ensures Adjacent(g, x, y) && Edges(m', x)[y].cost == Edges(g, x)[y].cost
    {
      if x == f && y == t {
      } else if x == t && y == f {
        assert Adjacent(g, t, f);
      } else {
        assert Adjacent(mst, x, y);
      }
    }
  }

  /** Each vertex still has exactly one earlier tree neighbour after attaching `t` to `f`. */
  lemma AttachEarlier(mst: Graph, m': Graph, order: seq<int>, f: int, t: int)
    requires Distinct(|mst.adjList|, order) && |m'.adjList| == |mst.adjList| && IsVertex(mst, t) && t !in order
    requires f in order
    requires forall k :: 1 <= k < |order| ==> Earlier(mst, order, k, k) == 1
    requires forall b :: Adjacent(m', t, b) <==> b == f
    requires forall a, b :: 0 <= a < |mst.adjList| && a != t && b != t ==> (Adjacent(m', a, b) <==> Adjacent(mst, a, b))
    ensures Distinct(|m'.adjList|, order + [t])
    ensures forall k :: 1 <= k < |order| + 1 ==> Earlier(m', order + [t], k, k) == 1
  {
    var order' := order + [t];
    assert forall k :: 0 <= k < |order| ==> order'[k] == order[k];
    forall k | 1 <= k < |order'|
      ensures Earlier(m', order', k, k) == 1
    {
      if k < |order| {
        EarlierAway(mst, m', order, order', t, k, k);
      } else {
        EarlierNew(m', order', t, f, k);
        assert order'[..k] == order;
      }
    }
  }

  /** Attaching a new vertex keeps the tree shape. */
  lemma AttachTree(g: Graph, source: int, st: Prim, top: Info)
    requires Valid(g) && Symmetric(g) && TreeOk(g, source, st)
    requires IsVertex(g, top.from) && top.from in st.visited && Adjacent(g, top.from, top.to)
    requires top.dist == Edges(g, top.from)[top.to].cost && top.to !in st.visited
    ensures TreeOk(g, source, Prim(st.pq, st.visited + {top.to},
      AddEdge(st.mst, top.from, top.to, top.dist), st.cost + top.dist, st.order + [top.to]))
  {
    var f, t, mst := top.from, top.to, st.mst;
    AttachEdges(g, mst, st.visited, f, t, top.dist);
    var m' := AddEdge(mst, f, t, top.dist);
    AddEdgeValid(mst, f, t, top.dist);
    AddEdgeSymmetric(mst, f, t, top.dist);
    AddEdgeCounted(mst, f, t, top.dist);
    AttachEarlier(mst, m', st.order, f, t);
    VisitGrows(|g.adjList|, st.visited, st.order, t);
    assert forall v :: v in st.visited + {t} <==> v in st.order + [t];
  }

  /** The state a pop leads to, by whether the popped target was visited. */
  lemma StepIs(g: Graph, st: Prim)
    requires Valid(g) && |st.pq| > 0 && QueueOk(g, st.visited, st.pq)
    requires |st.mst.adjList| == |g.adjList| && Symmetric(st.mst)
    ensures var k := MinIndex(st.pq, |st.pq|); var top := st.pq[k];
      var pq := Remove(st.pq, k) + Fresh(g, top.to, Neighbors(g, top.to), st.visited);
      && top in st.pq
      && (top.to in st.visited ==> Step(g, st) == st.(pq := pq))
      && (top.to !in st.visited ==> (Step(g, st) ==
            Prim(pq, st.visited + {top.to}, AddEdge(st.mst, top.from, top.to, top.dist), st.cost + top.dist, st.order + [top.to])))
  {
    var k := MinIndex(st.pq, |st.pq|);
    assert st.pq[k] in st.pq;
    if st.pq[k].to in st.visited {
      assert st.visited + {st.pq[k].to} == st.visited;
    }
  }

  /** A pop keeps the invariant. */
  lemma StepInv(g: Graph, source: int, st: Prim)
    requires Valid(g) && Symmetric(g) && |st.pq| > 0 && Inv(g, source, st)
    ensures Inv(g, source, Step(g, st))
  {
    var k := MinIndex(st.pq, |st.pq|);
    PopQueue(g, st.visited, st.pq, k);
    PopFrontier(g, st.visited, st.pq, k);
    StepIs(g, st);
    var top := st.pq[k];
    if top.to !in st.visited {
      AttachTree(g, source, st, top);
    } else {
      assert st.visited + {top.to} == st.visited;
    }
  }

  /** A pop either visits a new vertex or lowers the number of stale entries. */
  lemma StepProgress(g: Graph, source: int, st: Prim)
    requires Valid(g) && Symmetric(g) && |st.pq| > 0 && Inv(g, source, st)
    ensures var r := Step(g, st);
      || |st.visited| < |r.visited| <= |g.adjList|
      || (r.visited == st.visited && Stale(r.pq, r.visited) < Stale(st.pq, st.visited))
  {
    var k := MinIndex(st.pq, |st.pq|);
    var top := st.pq[k];
    StepIs(g, st);
    if top.to in st.visited {
      StaleStep(g, st.visited, st.pq, k);
    } else {
      VisitGrows(|g.adjList|, st.visited, st.order, top.to);
    }
  }

  /** Visiting a new vertex grows the visited set by one, and it stays within the vertices. */
  lemma VisitGrows(n: int, visited: set<int>, order: seq<int>, t: int)
    requires Distinct(n, order) && (forall v :: v in visited <==> v in order)
    requires 0 <= t < n && t !in visited
    ensures |visited| < |visited + {t}| <= n
  {
    forall v | v in visited + {t} ensures 0 <= v < n {
      if v != t {
        assert v in order;
      }
    }
    BoundedSize(visited + {t}, n);
  }

  /** Popping an entry whose target is visited lowers the stale count. */
  lemma StaleStep(g: Graph, visited: set<int>, pq: seq<Info>, k: nat)
    requires Valid(g) && k < |pq| && QueueOk(g, visited, pq) && pq[k].to in visited
    ensures pq[k] in pq && IsVertex(g, pq[k].to)
    ensures Stale(Remove(pq, k) + Fresh(g, pq[k].to, Neighbors(g, pq[k].to), visited), visited) < Stale(pq, visited)
  {
    assert pq[k] in pq;
    var pushed := Fresh(g, pq[k].to, Neighbors(g, pq[k].to), visited);
    StaleRemove(pq, k, visited);
    StaleNone(pushed, visited);
    StaleConcat(Remove(pq, k), pushed, visited);
  }

  /* ---------------------------------------------------------------------- */
  /* The loop and `run`                                                      */
  /* ---------------------------------------------------------------------- */

  /**
   * `while (visited.size() != V())`: pop, then stop when the queue has run
   * empty. The queue must be non-empty on entry unless every vertex is
   * visited, since `pq.top()` on an empty queue is undefined.
   */
  function Loop(g: Graph, source: int, st: Prim): (r: Prim)
    requires Valid(g) && Symmetric(g) && Inv(g, source, st)
    requires |st.visited| != |g.adjList| ==> |st.pq| > 0
    ensures Inv(g, source, r)
    ensures |r.visited| == |g.adjList| || |r.pq| == 0
    decreases |g.adjList| - |st.visited|, Stale(st.pq, st.visited)
  {
    if |st.visited| == |g.adjList| then st
    else
      StepInv(g, source, st);
      StepProgress(g, source, st);
      var next := Step(g, st);
      if |next.pq| == 0 then next else Loop(g, source, next)
  }

  /** The state after the source's edges are queued and the source is visited. */
  function Start(g: Graph, source: int): (st: Prim)
    requires Valid(g) && Symmetric(g) && IsVertex(g, source)
    ensures Inv(g, source, st)
  {
    var pq := Fresh(g, source, Neighbors(g, source), {});
    var mst := NewGraph(|g.adjList|);
    StartTree(g, source, mst);
    StartFrontier(g, source, pq);
    Prim(pq, {source}, mst, 0.0, [source])
  }

  lemma StartTree(g: Graph, source: int, mst: Graph)
    requires Valid(g) && IsVertex(g, source) && mst == NewGraph(|g.adjList|)
    ensures TreeOk(g, source, Prim([], {source}, mst, 0.0, [source]))
  {
    assert forall x, y :: 0 <= x < |mst.adjList| ==> !Adjacent(mst, x, y);
  }

  lemma StartFrontier(g: Graph, source: int, pq: seq<Info>)
    requires Valid(g) && IsVertex(g, source) && pq == Fresh(g, source, Neighbors(g, source), {})
    ensures QueueOk(g, {source}, pq) && Frontier(g, {source}, pq)
  {
    forall y | Adjacent(g, source, y) ensures Info(source, y, Edges(g, source)[y].cost) in pq {
      assert y in Neighbors(g, source);
    }
  }

  /** The queue is empty after `Start` only when the source has no edge. */
  lemma StartQueue(g: Graph, source: int)
    requires Valid(g) && Symmetric(g) && IsVertex(g, source)
    requires |g.adjList| == 1 || |Edges(g, source)| > 0
    ensures |{source}| != |g.adjList| ==> |Start(g, source).pq| > 0
  {
    if |g.adjList| != 1 {
      KeyOf(Edges(g, source));
      var y :| y in Edges(g, source);
      assert Info(source, y, Edges(g, source)[y].cost) in Start(g, source).pq;
    }
  }

  /** A map with an entry has a key. */
  lemma KeyOf(m: map<int, Edge>)
    requires |m| > 0
    ensures exists y :: y in m
  {
    if forall y :: y !in m {
      assert false;
    }
  }

  /** What the invariant says about the state the loop stops in. */
  lemma ExitShape(g: Graph, source: int, r: Prim)
    requires Valid(g) && Inv(g, source, r)
    requires |r.visited| == |g.adjList| || |r.pq| == 0
    ensures V(r.mst) == V(g) && |r.mst.adjList| == |g.adjList| && source in r.visited
    ensures forall v :: v in r.visited ==> IsVertex(g, v)
    ensures E(r.mst) == 2 * (|r.visited| - 1)
    ensures forall x, y :: 0 <= x < |r.mst.adjList| && Adjacent(r.mst, x, y) ==>
      && x in r.visited && y in r.visited && x != y
      && Adjacent(g, x, y) && GetEdgeCost(r.mst, x, y) == GetEdgeCost(g, x, y)
    ensures forall v :: v in r.visited <==> v in r.order
    ensures Distinct(|g.adjList|, r.order) && r.order[0] == source
    ensures forall k :: 1 <= k < |r.order| ==> Earlier(r.mst, r.order, k, k) == 1
    ensures forall x, y :: 0 <= x < |g.adjList| && x in r.visited && Adjacent(g, x, y) ==> y in r.visited
  {
    assert r.order[0] in r.order;
    forall v | v in r.visited ensures IsVertex(g, v) {
      assert v in r.order;
    }
    if |r.visited| == |g.adjList| {
      AllVisited(g, r.visited);
    }
  }

  /**
   * `run(source)` on a graph whose `MST` starts as `Graph(V())` with cost 0.
   * Either every vertex is visited or the source has an edge; otherwise
   * the first `pq.top()` reads an empty queue.
   */
  function Run(g: Graph, source: int): (r: Prim)
    requires Valid(g) && Symmetric(g) && IsVertex(g, source)
    requires |g.adjList| == 1 || |Edges(g, source)| > 0
    ensures V(r.mst) == V(g) && |r.mst.adjList| == |g.adjList| && source in r.visited
    ensures forall v :: v in r.visited ==> IsVertex(g, v)
    ensures E(r.mst) == 2 * (|r.visited| - 1)
    ensures forall x, y :: 0 <= x < |r.mst.adjList| && Adjacent(r.mst, x, y) ==>
      && x in r.visited && y in r.visited && x != y
      && Adjacent(g, x, y) && GetEdgeCost(r.mst, x, y) == GetEdgeCost(g, x, y)
    ensures forall v :: v in r.visited <==> v in r.order
    ensures Distinct(|g.adjList|, r.order) && r.order[0] == source
    ensures forall k :: 1 <= k < |r.order| ==> Earlier(r.mst, r.order, k, k) == 1
    ensures forall x, y :: 0 <= x < |g.adjList| && x in r.visited && Adjacent(g, x, y) ==> y in r.visited
  {
    StartQueue(g, source);
    var r := Loop(g, source, Start(g, source));
    ExitShape(g, source, r);
    r
  }

  /** A set of `n` vertices below `n` holds every vertex. */
  lemma AllVisited(g: Graph, visited: set<int>)
    requires Valid(g) && |visited| == |g.adjList|
    requires forall v :: v in visited ==> 0 <= v < |g.adjList|
    ensures forall v :: 0 <= v < |g.adjList| ==> v in visited
  {
    forall v | 0 <= v < |g.adjList|
      ensures v in visited
    {
      if v !in visited {
        BoundedSize(visited + {v}, |g.adjList|);
      }
    }
  }
}
