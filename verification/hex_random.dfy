/**
 * The random completion used by the Monte-Carlo player: `randomize` fills
 * every empty cell (or reshuffles the cells it filled last time) and
 * `revertRandom` empties the filled cells again. The random generator is
 * not modelled: `Randomize` receives the shuffled labels, and `Shuffle`
 * builds such a sequence by Fisher-Yates from caller-supplied draws.
 */
module HexRandom {
  import opened HexGrid
  import opened HexBoard

  /* ---------------------------------------------------------------------- */
  /* The labels to distribute                                                */
  /* ---------------------------------------------------------------------- */

  /** `freeHexes`: the unsigned difference `size*size - occupied`. */
  function FreeCount(b: Board): (n: U32)
    requires Wf(b)
    ensures Counted(b) ==> n == EmptyCount(b.cells)
  {
    CellsFit(b.size);
    CountAtMostLength(b.cells, Empty);
    (b.size * b.size - b.occupied) % TwoTo32
  }

  /** Blue's half of the free cells; an odd cell goes to Blue unless Blue moved last. */
  function BlueShare(b: Board): nat
    requires Wf(b)
  {
    FreeCount(b) / 2 + (if FreeCount(b) % 2 != 0 && b.last != BluePlayer then 1 else 0)
  }

  /** Red's half of the free cells; an odd cell goes to Red when Blue moved last. */
  function RedShare(b: Board): nat
    requires Wf(b)
  {
    FreeCount(b) / 2 + (if FreeCount(b) % 2 != 0 && b.last == BluePlayer then 1 else 0)
  }

  /** The share of player `p`. */
  function Share(b: Board, p: Player): nat
    requires Wf(b)
  {
    if p == BluePlayer then BlueShare(b) else RedShare(b)
  }

  /**
   * The shares split the free cells as evenly as possible, and when their
   * number is odd the extra cell goes to the player who did not move last.
   */
  lemma SharesSplit(b: Board)
    requires Wf(b)
    ensures BlueShare(b) + RedShare(b) == FreeCount(b)
    ensures FreeCount(b) % 2 == 0 ==> BlueShare(b) == RedShare(b)
    ensures FreeCount(b) % 2 != 0 ==> Share(b, b.last.Opponent()) == Share(b, b.last) + 1
  {}

  /** The labels of a fresh completion: Blue's share of BLUE then Red's share of RED. */
  function FreshLabels(b: Board): (v: seq<Status>)
    requires Wf(b)
    ensures |v| == FreeCount(b)
    ensures multiset(v)[Blue] == BlueShare(b)
    ensures multiset(v)[Red] == RedShare(b)
    ensures multiset(v)[Empty] == 0
  {
    var blues := seq(BlueShare(b), _ => Blue);
    var reds := seq(RedShare(b), _ => Red);
    ConstSeqCount(BlueShare(b), Blue, Blue);
    ConstSeqCount(BlueShare(b), Blue, Red);
    ConstSeqCount(BlueShare(b), Blue, Empty);
    ConstSeqCount(RedShare(b), Red, Blue);
    ConstSeqCount(RedShare(b), Red, Red);
    ConstSeqCount(RedShare(b), Red, Empty);
    assert multiset(blues + reds) == multiset(blues) + multiset(reds);
    blues + reds
  }

  /** The current statuses of the ledger cells, in ledger order. */
  function LedgerLabels(b: Board): (v: seq<Status>)
    requires InRange(b)
    ensures |v| == |b.randomized|
  {
    seq(|b.randomized|, k requires 0 <= k < |b.randomized| => b.cells[b.randomized[k]])
  }

  /** What `randomize` shuffles: fresh labels on an empty ledger, the ledger's statuses otherwise. */
  function Labels(b: Board): seq<Status>
    requires Wf(b)
  {
    if |b.randomized| == 0 then FreshLabels(b) else LedgerLabels(b)
  }

  /** `w` is a rearrangement of `v`. */
  predicate IsShuffleOf(w: seq<Status>, v: seq<Status>) {
    multiset(w) == multiset(v)
  }

  /** No index occurs twice. */
  predicate Distinct(s: seq<nat>) {
    forall k, l :: 0 <= k < l < |s| ==> s[k] != s[l]
  }

  /** In a duplicate-free sequence an entry does not recur later. */
  lemma DistinctHead(s: seq<nat>, i: nat)
    requires Distinct(s) && i < |s|
    ensures s[i] !in s[i + 1..]
  {
    assert forall k :: i + 1 <= k < |s| ==> s[k] != s[i];
  }

  /** An element missing from `s[i..]` is neither `s[i]` nor in `s[i + 1..]`. */
  lemma NotInSuffix<T>(s: seq<T>, i: nat, x: T)
    requires i < |s| && x !in s[i..]
    ensures x != s[i] && x !in s[i + 1..]
  {
    assert s[i] == s[i..][0];
    assert s[i + 1..] == s[i..][1..];
  }

  /* ---------------------------------------------------------------------- */
  /* Fisher-Yates                                                            */
  /* ---------------------------------------------------------------------- */

  /**
   * The first `n` positions of `v` shuffled from the top down: position
   * `n-1` is swapped with the position `draw(n-1) mod n`, then the rest is
   * shuffled. Any draws give a rearrangement.
   */
  function FisherYates<T>(v: seq<T>, draw: nat -> nat, n: nat): (r: seq<T>)
    requires n <= |v|
    ensures |r| == |v|
    ensures multiset(r) == multiset(v)
    ensures r[n..] == v[n..]
    decreases n
  {
    if n <= 1 then v
    else
      var k := draw(n - 1) % n;
      var v1 := v[n - 1 := v[k]][k := v[n - 1]];
      assert multiset(v1) == multiset(v);
      FisherYates(v1, draw, n - 1)
  }

  /** A full shuffle of `v` driven by `draw`. */
  function Shuffle<T>(v: seq<T>, draw: nat -> nat): (r: seq<T>)
    ensures |r| == |v| && multiset(r) == multiset(v)
  {
    FisherYates(v, draw, |v|)
  }

  /* ---------------------------------------------------------------------- */
  /* The empty cells                                                         */
  /* ---------------------------------------------------------------------- */

  /** The empty cells at or after `i`, in increasing order. */
  function EmptyFrom(cells: seq<Status>, i: nat): (e: seq<nat>)
    requires i <= |cells|
    ensures forall k :: 0 <= k < |e| ==> i <= e[k] < |cells| && cells[e[k]] == Empty
    decreases |cells| - i
  {
    if i == |cells| then []
    else
      var rest := EmptyFrom(cells, i + 1);
      if cells[i] == Empty then [i] + rest else rest
  }

  /** An empty cell at `i` heads the list of empty cells from `i`; otherwise the list starts later. */
  lemma EmptyFromUnfold(cells: seq<Status>, i: nat)
    requires i < |cells|
    ensures cells[i] == Empty ==> EmptyFrom(cells, i) == [i] + EmptyFrom(cells, i + 1)
    ensures cells[i] != Empty ==> EmptyFrom(cells, i) == EmptyFrom(cells, i + 1)
  {}

  /** The empty cells are listed in increasing order. */
  lemma {:induction false} EmptyFromSorted(cells: seq<Status>, i: nat)
    requires i <= |cells|
    ensures var e := EmptyFrom(cells, i); forall k, l :: 0 <= k < l < |e| ==> e[k] < e[l]
    decreases |cells| - i
  {
    if i < |cells| {
      EmptyFromSorted(cells, i + 1);
      EmptyFromUnfold(cells, i);
      var e := EmptyFrom(cells, i);
      var e1 := EmptyFrom(cells, i + 1);
      if cells[i] == Empty {
        forall k, l | 0 <= k < l < |e|
          ensures e[k] < e[l]
        {
          assert e[l] == e1[l - 1];
          if k > 0 {
            assert e[k] == e1[k - 1];
          }
        }
      }
    }
  }

  /** Every empty cell from `i` on is listed. */
  lemma {:induction false} EmptyFromComplete(cells: seq<Status>, i: nat)
    requires i <= |cells|
    ensures forall d :: i <= d < |cells| && cells[d] == Empty ==> d in EmptyFrom(cells, i)
    decreases |cells| - i
  {
    if i < |cells| {
      EmptyFromComplete(cells, i + 1);
    }
  }

  /** One entry per empty cell. */
  lemma {:induction false} EmptyFromCount(cells: seq<Status>, i: nat)
    requires i <= |cells|
    ensures |EmptyFrom(cells, i)| == EmptyCount(cells[i..])
    decreases |cells| - i
  {
    if i < |cells| {
      assert cells[i..] == [cells[i]] + cells[i + 1..];
      EmptyFromCount(cells, i + 1);
    }
  }

  /** All empty cells, in increasing order. */
  function EmptyIndices(cells: seq<Status>): (e: seq<nat>)
    ensures |e| == EmptyCount(cells)
    ensures Distinct(e)
    ensures forall k :: 0 <= k < |e| ==> e[k] < |cells| && cells[e[k]] == Empty
    ensures forall d :: 0 <= d < |cells| && cells[d] == Empty ==> d in e
  {
    assert cells[0..] == cells;
    EmptyFromCount(cells, 0);
    EmptyFromComplete(cells, 0);
    EmptyFromSorted(cells, 0);
    EmptyFrom(cells, 0)
  }

  /* ---------------------------------------------------------------------- */
  /* randomize, first branch: fill the empty cells                           */
  /* ---------------------------------------------------------------------- */


  /** The number of empty cells below index `n`: the label counter when the fill loop reaches `n`. */
  function EmptyBefore(cells: seq<Status>, n: nat): nat
    requires n <= |cells|
  {
    if n == 0 then 0 else EmptyBefore(cells, n - 1) + (if cells[n - 1] == Empty then 1 else 0)
  }

  /** Extending the prefix `s[..m]` by one element to `s[..n]` adds that element to the prefix's multiset. */
  lemma PrefixCount<T>(s: seq<T>, m: nat, n: nat, t: T)
    requires n == m + 1 <= |s|
    ensures multiset(s[..n])[t] == multiset(s[..m])[t] + (if s[m] == t then 1 else 0)
  {
    assert s[..n] == s[..m] + [s[m]];
  }

  /** The counter at `n` is the number of empty cells in `cells[..n]`. */
  lemma {:induction false} EmptyBeforeCount(cells: seq<Status>, n: nat)
    requires n <= |cells|
    ensures EmptyBefore(cells, n) == EmptyCount(cells[..n])
  {
    if n > 0 {
      EmptyBeforeCount(cells, n - 1);
      PrefixCount(cells, n - 1, n, Empty);
    }
  }

  /** The list of empty cells, read one step further on from `i`. */
  lemma EmptyFromAt(cells: seq<Status>, i: nat, k: nat)
    requires i < |cells| && k < |EmptyFrom(cells, i)|
    ensures cells[i] == Empty && k == 0 ==> EmptyFrom(cells, i)[k] == i
    ensures cells[i] == Empty && k > 0 ==> EmptyFrom(cells, i)[k] == EmptyFrom(cells, i + 1)[k - 1]
    ensures cells[i] != Empty ==> EmptyFrom(cells, i)[k] == EmptyFrom(cells, i + 1)[k]
  {}

  /** The `k`-th empty cell from `i` on is reached with the counter `k` higher than at `i`. */
  lemma {:induction false} RankOf(cells: seq<Status>, i: nat, k: nat)
    requires i <= |cells| && k < |EmptyFrom(cells, i)|
    ensures EmptyBefore(cells, EmptyFrom(cells, i)[k]) == EmptyBefore(cells, i) + k
    decreases |cells| - i
  {
    EmptyFromAt(cells, i, k);
    assert EmptyBefore(cells, i + 1) == EmptyBefore(cells, i) + (if cells[i] == Empty then 1 else 0);
    if cells[i] == Empty && k > 0 {
      RankOf(cells, i + 1, k - 1);
    } else if cells[i] != Empty {
      RankOf(cells, i + 1, k);
    }
  }

  /** Label number `c`, or EMPTY past the end of `w` (a case `Randomize` rules out). */
  function LabelAt(w: seq<Status>, c: nat): Status {
    if c < |w| then w[c] else Empty
  }

  /**
   * The fill loop's result: it visits the cells in increasing order and an
   * empty cell takes the next unused label, so the empty cell `d` takes
   * label number `EmptyBefore(cells, d)`; every other cell is kept.
   */
  function Filled(cells: seq<Status>, w: seq<Status>): (r: seq<Status>)
    ensures |r| == |cells|
    ensures forall d :: 0 <= d < |cells| && cells[d] != Empty ==> r[d] == cells[d]
  {
    seq(|cells|, d requires 0 <= d < |cells| =>
      if cells[d] == Empty then LabelAt(w, EmptyBefore(cells, d)) else cells[d])
  }

  /** The `k`-th empty cell takes label `k`. */
  lemma FilledLabels(cells: seq<Status>, w: seq<Status>)
    ensures var e := EmptyFrom(cells, 0);
      forall k :: 0 <= k < |e| ==> Filled(cells, w)[e[k]] == LabelAt(w, k)
  {
    var e := EmptyFrom(cells, 0);
    forall k | 0 <= k < |e|
      ensures Filled(cells, w)[e[k]] == LabelAt(w, k)
    {
      RankOf(cells, 0, k);
    }
  }

  /**
   * Up to index `n`, the fill adds to the count of a colour the labels of
   * that colour it has used so far.
   */
  lemma {:induction false} FilledCounts(cells: seq<Status>, w: seq<Status>, n: nat, t: Status)
    requires n <= |cells| && EmptyBefore(cells, n) <= |w| && t != Empty
    ensures multiset(Filled(cells, w)[..n])[t] == multiset(cells[..n])[t] + multiset(w[..EmptyBefore(cells, n)])[t]
  {
    if n > 0 {
      FilledCounts(cells, w, n - 1, t);
      FilledCountStep(cells, w, n, t);
    }
  }

  /** The fill of cell `n - 1` adds its colour exactly when that cell or the label it takes has it. */
  lemma FilledCountStep(cells: seq<Status>, w: seq<Status>, n: nat, t: Status)
    requires 0 < n <= |cells| && EmptyBefore(cells, n) <= |w| && t != Empty
    ensures var r := Filled(cells, w); var c := EmptyBefore(cells, n - 1); var c' := EmptyBefore(cells, n);
      multiset(r[..n])[t] + multiset(cells[..n - 1])[t] + multiset(w[..c])[t]
      == multiset(r[..n - 1])[t] + multiset(cells[..n])[t] + multiset(w[..c'])[t]
  {
    var c := EmptyBefore(cells, n - 1);
    var r := Filled(cells, w);
    PrefixCount(r, n - 1, n, t);
    PrefixCount(cells, n - 1, n, t);
    if cells[n - 1] == Empty {
      assert r[n - 1] == w[c];
      PrefixCount(w, c, EmptyBefore(cells, n), t);
    }
  }

  /* ---------------------------------------------------------------------- */
  /* randomize, second branch: reshuffle the ledger cells                    */
  /* ---------------------------------------------------------------------- */

  /**
   * One reshuffle step on ledger slot `i`: a ledger cell whose status
   * differs from its new label moves to the set of the new label (RED for
   * anything but BLUE) and takes that label.
   */
  function ReshuffleStep(b: Board, w: seq<Status>, i: nat): (r: Board)
    requires InRange(b) && i < |w| == |b.randomized|
    ensures InRange(r) && r.size == b.size && r.occupied == b.occupied && r.last == b.last
    ensures |r.cells| == |b.cells| && r.randomized == b.randomized
    ensures r.cells == b.cells[b.randomized[i] := w[i]]
  {
    var h := b.randomized[i];
    if w[i] == b.cells[h] then b
    else if w[i] == Blue then b.(cells := b.cells[h := w[i]], red := b.red - {h}, blue := b.blue + {h})
    else b.(cells := b.cells[h := w[i]], blue := b.blue - {h}, red := b.red + {h})
  }

  /** A reshuffle step changes the set membership of its own cell only, and keeps consistency. */
  lemma ReshuffleStepSets(b: Board, w: seq<Status>, i: nat)
    requires InRange(b) && i < |w| == |b.randomized|
    ensures var r := ReshuffleStep(b, w, i);
      && (forall d :: d != b.randomized[i] ==> (d in r.blue <==> d in b.blue) && (d in r.red <==> d in b.red))
      && (Consistent(b) && w[i] != Empty ==> Consistent(r))
  {}

  /** The reshuffle loop from ledger slot `i` on. */
  function ReshuffleLoop(b: Board, w: seq<Status>, i: nat): (r: Board)
    requires InRange(b) && i <= |w| == |b.randomized|
    ensures InRange(r) && r.size == b.size && r.occupied == b.occupied && r.last == b.last
    ensures |r.cells| == |b.cells| && r.randomized == b.randomized
    decreases |w| - i
  {
    if i == |w| then b else ReshuffleLoop(ReshuffleStep(b, w, i), w, i + 1)
  }

  /** The reshuffle touches only ledger cells. */
  lemma {:induction false} ReshuffleFrame(b: Board, w: seq<Status>, i: nat)
    requires InRange(b) && i <= |w| == |b.randomized|
    ensures var r := ReshuffleLoop(b, w, i);
      forall d :: 0 <= d < |b.cells| && d !in b.randomized[i..] ==>
        r.cells[d] == b.cells[d] && (d in r.blue <==> d in b.blue) && (d in r.red <==> d in b.red)
    decreases |w| - i
  {
    if i < |w| {
      var b1 := ReshuffleStep(b, w, i);
      ReshuffleStepSets(b, w, i);
      ReshuffleFrame(b1, w, i + 1);
      forall d | 0 <= d < |b.cells| && d !in b.randomized[i..]
        ensures d != b.randomized[i] && d !in b.randomized[i + 1..]
      {
        NotInSuffix(b.randomized, i, d);
      }
    }
  }

  /** The reshuffle keeps the sets in step with the cells as long as it writes no EMPTY label. */
  lemma {:induction false} ReshuffleConsistent(b: Board, w: seq<Status>, i: nat)
    requires InRange(b) && i <= |w| == |b.randomized| && Consistent(b)
    requires forall k :: i <= k < |w| ==> w[k] != Empty
    ensures Consistent(ReshuffleLoop(b, w, i))
    decreases |w| - i
  {
    if i < |w| {
      ReshuffleStepSets(b, w, i);
      ReshuffleConsistent(ReshuffleStep(b, w, i), w, i + 1);
    }
  }

  /** With a duplicate-free ledger every ledger cell ends up with its own label. */
  lemma ReshuffleWrites(b: Board, w: seq<Status>, i: nat)
    requires InRange(b) && i <= |w| == |b.randomized| && Distinct(b.randomized)
    ensures forall k :: i <= k < |w| ==> ReshuffleLoop(b, w, i).cells[b.randomized[k]] == w[k]
  {
    forall k | i <= k < |w|
      ensures ReshuffleLoop(b, w, i).cells[b.randomized[k]] == w[k]
    {
      ReshuffleWritesAt(b, w, i, k);
    }
  }

  /** With a duplicate-free ledger the reshuffle from slot `i` leaves slot `k >= i` with its label. */
  lemma {:induction false} ReshuffleWritesAt(b: Board, w: seq<Status>, i: nat, k: nat)
    requires InRange(b) && i <= k < |w| == |b.randomized| && Distinct(b.randomized)
    ensures ReshuffleLoop(b, w, i).cells[b.randomized[k]] == w[k]
    decreases |w| - i
  {
    if k > i {
      ReshuffleWritesAt(ReshuffleStep(b, w, i), w, i + 1, k);
    } else {
      ReshuffleWritesHead(b, w, i);
    }
  }

  /** With a duplicate-free ledger no later slot overwrites the label written for slot `i`. */
  lemma ReshuffleWritesHead(b: Board, w: seq<Status>, i: nat)
    requires InRange(b) && i < |w| == |b.randomized| && Distinct(b.randomized)
    ensures ReshuffleLoop(b, w, i).cells[b.randomized[i]] == w[i]
  {
    DistinctHead(b.randomized, i);
    ReshuffleKeepsCell(ReshuffleStep(b, w, i), w, i + 1, b.randomized[i]);
  }

  /** The reshuffle from slot `i` leaves a cell that is not on the rest of the ledger alone. */
  lemma {:induction false} ReshuffleKeepsCell(b: Board, w: seq<Status>, i: nat, d: nat)
    requires InRange(b) && i <= |w| == |b.randomized| && d !in b.randomized[i..]
    ensures d < |b.cells| ==> ReshuffleLoop(b, w, i).cells[d] == b.cells[d]
    decreases |w| - i
  {
    if i < |w| {
      NotInSuffix(b.randomized, i, d);
      ReshuffleKeepsCell(ReshuffleStep(b, w, i), w, i + 1, d);
    }
  }

  /* ---------------------------------------------------------------------- */
  /* randomize and revertRandom                                              */
  /* ---------------------------------------------------------------------- */

  /**
   * The first branch of `randomize`: the empty cells take the labels in
   * increasing order and join the set of their colour (RED for anything but
   * BLUE), and the ledger lists them, followed by zeros up to `freeHexes`
   * slots.
   */
  function FreshFill(b: Board, w: seq<Status>): (r: Board)
    requires Wf(b) && |w| == FreeCount(b) && EmptyCount(b.cells) <= FreeCount(b)
    ensures Wf(r) && r.size == b.size && r.last == b.last && |r.cells| == |b.cells|
    ensures r.occupied == b.size * b.size
    ensures |r.randomized| == FreeCount(b)
    ensures r.randomized[..EmptyCount(b.cells)] == EmptyIndices(b.cells)
    ensures forall m :: EmptyCount(b.cells) <= m < |r.randomized| ==> r.randomized[m] == 0
  {
    CellsFit(b.size);
    var e := EmptyIndices(b.cells);
    var filled := Filled(b.cells, w);
    var ledger := e + seq(FreeCount(b) - |e|, _ => 0);
    assert ledger[..|e|] == e;
    b.(cells := filled,
       blue := b.blue + (set d | d in e && filled[d] == Blue),
       red := b.red + (set d | d in e && filled[d] != Blue),
       occupied := b.size * b.size,
       randomized := ledger)
  }

  /**
   * `randomize` with the shuffled labels `w`. On an empty ledger the ledger
   * is resized to `freeHexes` zeros and the empty cells are filled in
   * increasing order, the `k`-th of them taking label `k` and ledger slot
   * `k`; slots beyond the number of empty cells keep their zero. Otherwise
   * the ledger cells are relabelled. Either way `occupied` becomes
   * `size*size`. The fill reads one label per empty cell, so the source
   * needs at least as many free cells by the counter as empty cells on the
   * board.
   */
  function Randomize(b: Board, w: seq<Status>): (r: Board)
    requires Wf(b) && IsShuffleOf(w, Labels(b))
    requires |b.randomized| == 0 ==> EmptyCount(b.cells) <= FreeCount(b)
    ensures Wf(r) && r.size == b.size && r.last == b.last && |r.cells| == |b.cells|
    ensures r.occupied == b.size * b.size
    ensures |b.randomized| == 0 ==>
      && |r.randomized| == FreeCount(b)
      && r.randomized[..EmptyCount(b.cells)] == EmptyIndices(b.cells)
      && forall m :: EmptyCount(b.cells) <= m < |r.randomized| ==> r.randomized[m] == 0
    ensures |b.randomized| > 0 ==> r.randomized == b.randomized
  {
    CellsFit(b.size);
    assert |w| == |Labels(b)| by {
      assert |multiset(w)| == |multiset(Labels(b))|;
    }
    if |b.randomized| == 0 then FreshFill(b, w)
    else
      ReshuffleLoop(b, w, 0).(occupied := b.size * b.size)
  }

  /** On a counted board a fresh completion's ledger is exactly the list of empty cells. */
  lemma RandomizeFreshLedger(b: Board, w: seq<Status>)
    requires Wf(b) && Counted(b) && |b.randomized| == 0 && IsShuffleOf(w, FreshLabels(b))
    ensures Randomize(b, w).randomized == EmptyIndices(b.cells)
  {
    var r := Randomize(b, w);
    assert r.randomized == r.randomized[..EmptyCount(b.cells)];
  }

  /** The labels of a fresh completion are never EMPTY. */
  lemma FreshLabelsNonEmpty(b: Board, w: seq<Status>)
    requires Wf(b) && IsShuffleOf(w, FreshLabels(b))
    ensures forall k :: 0 <= k < |w| ==> w[k] != Empty
  {
    forall k | 0 <= k < |w|
      ensures w[k] != Empty
    {
      assert w[k] in multiset(w);
    }
  }

  /** A fresh completion gives the `k`-th empty cell the label `w[k]`. */
  lemma RandomizeFreshLabels(b: Board, w: seq<Status>)
    requires Wf(b) && Counted(b) && |b.randomized| == 0 && IsShuffleOf(w, FreshLabels(b))
    ensures var r := Randomize(b, w); var e := EmptyIndices(b.cells);
      forall k :: 0 <= k < |e| ==> r.cells[e[k]] == w[k]
  {
    var e := EmptyIndices(b.cells);
    assert EmptyFrom(b.cells, 0) == e;
    assert |w| == |e| by {
      assert |multiset(w)| == |multiset(FreshLabels(b))|;
    }
    FilledLabels(b.cells, w);
    var r := Randomize(b, w);
    forall k | 0 <= k < |e|
      ensures r.cells[e[k]] == w[k]
    {
      assert r.cells[e[k]] == LabelAt(w, k);
    }
  }

  /** A fresh completion leaves every occupied cell alone. */
  lemma RandomizeFreshKeeps(b: Board, w: seq<Status>)
    requires Wf(b) && Counted(b) && |b.randomized| == 0 && IsShuffleOf(w, FreshLabels(b))
    ensures var r := Randomize(b, w);
      forall d :: 0 <= d < |b.cells| && b.cells[d] != Empty ==> r.cells[d] == b.cells[d]
  {}

  /** A fresh completion leaves no cell empty. */
  lemma RandomizeFreshFull(b: Board, w: seq<Status>)
    requires Wf(b) && Counted(b) && |b.randomized| == 0 && IsShuffleOf(w, FreshLabels(b))
    ensures Full(Randomize(b, w))
  {
    var e := EmptyIndices(b.cells);
    var r := Randomize(b, w);
    RandomizeFreshLabels(b, w);
    FreshLabelsNonEmpty(b, w);
    assert |w| == |e| by {
      assert |multiset(w)| == |multiset(FreshLabels(b))|;
    }
    forall d | 0 <= d < |b.cells|
      ensures r.cells[d] != Empty
    {
      if b.cells[d] == Empty {
        var k :| 0 <= k < |e| && e[k] == d;
        assert r.cells[e[k]] == w[k];
      }
    }
  }

  /** A fresh completion of a counted board is counted: the counter becomes the number of cells. */
  lemma RandomizeFreshCounted(b: Board, w: seq<Status>)
    requires Wf(b) && Counted(b) && |b.randomized| == 0 && IsShuffleOf(w, FreshLabels(b))
    ensures Counted(Randomize(b, w))
  {
    RandomizeFreshFull(b, w);
    var r := Randomize(b, w);
    assert Empty !in multiset(r.cells);
  }

  /** A fresh completion adds each filled cell to the set of its colour and nothing else to either set. */
  lemma RandomizeFreshSets(b: Board, w: seq<Status>)
    requires Wf(b) && Counted(b) && |b.randomized| == 0 && IsShuffleOf(w, FreshLabels(b))
    ensures var r := Randomize(b, w); var e := EmptyIndices(b.cells);
      && (forall d :: d in r.blue <==> d in b.blue || (d in e && r.cells[d] == Blue))
      && (forall d :: d in r.red <==> d in b.red || (d in e && r.cells[d] == Red))
  {
    RandomizeFreshFull(b, w);
  }

  /**
   * A fresh completion of a board whose counter is right: the ledger lists
   * the empty cells in increasing order, each of them receives its label in
   * that order and joins the matching set, every other cell is untouched,
   * and the board is full and counted.
   */
  lemma RandomizeFresh(b: Board, w: seq<Status>)
    requires Wf(b) && Counted(b) && |b.randomized| == 0 && IsShuffleOf(w, FreshLabels(b))
    ensures var r := Randomize(b, w); var e := EmptyIndices(b.cells);
      && r.randomized == e
      && (forall k :: 0 <= k < |e| ==> r.cells[e[k]] == w[k])
      && (forall d :: 0 <= d < |b.cells| && b.cells[d] != Empty ==> r.cells[d] == b.cells[d])
      && Full(r) && Counted(r)
      && (forall d :: d in r.blue <==> d in b.blue || (d in e && r.cells[d] == Blue))
      && (forall d :: d in r.red <==> d in b.red || (d in e && r.cells[d] == Red))
  {
    RandomizeFreshLedger(b, w);
    RandomizeFreshLabels(b, w);
    RandomizeFreshKeeps(b, w);
    RandomizeFreshFull(b, w);
    RandomizeFreshCounted(b, w);
    RandomizeFreshSets(b, w);
  }

  /** A fresh completion of a consistent, counted board keeps the sets in step with the cells. */
  lemma RandomizeFreshConsistent(b: Board, w: seq<Status>)
    requires Wf(b) && Counted(b) && |b.randomized| == 0 && IsShuffleOf(w, FreshLabels(b))
    requires Consistent(b)
    ensures Consistent(Randomize(b, w))
  {
    RandomizeFreshKeeps(b, w);
    RandomizeFreshFull(b, w);
    RandomizeFreshSets(b, w);
    var r := Randomize(b, w);
    var e := EmptyIndices(b.cells);
    forall d | 0 <= d < |b.cells|
      ensures (d in r.blue <==> r.cells[d] == Blue) && (d in r.red <==> r.cells[d] == Red)
    {
      if d !in e {
        assert b.cells[d] != Empty;
      }
    }
  }

  /** Filling every empty cell adds the labels' colours to the board's. */
  lemma FilledTotal(cells: seq<Status>, w: seq<Status>, t: Status)
    requires |w| == EmptyCount(cells) && t != Empty
    ensures multiset(Filled(cells, w))[t] == multiset(cells)[t] + multiset(w)[t]
  {
    var n := |cells|;
    EmptyBeforeCount(cells, n);
    assert cells[..n] == cells;
    FilledCounts(cells, w, n, t);
    assert w[..|w|] == w;
    assert Filled(cells, w)[..n] == Filled(cells, w);
  }

  /**
   * A fresh completion of a counted board hands out exactly the two shares:
   * Blue gains `BlueShare` stones and Red gains `RedShare` stones.
   */
  lemma RandomizeFreshShares(b: Board, w: seq<Status>)
    requires Wf(b) && Counted(b) && |b.randomized| == 0 && IsShuffleOf(w, FreshLabels(b))
    ensures multiset(Randomize(b, w).cells)[Blue] == multiset(b.cells)[Blue] + BlueShare(b)
    ensures multiset(Randomize(b, w).cells)[Red] == multiset(b.cells)[Red] + RedShare(b)
  {
    assert |w| == EmptyCount(b.cells) by {
      assert |multiset(w)| == |multiset(FreshLabels(b))|;
    }
    assert Randomize(b, w).cells == Filled(b.cells, w);
    FilledTotal(b.cells, w, Blue);
    FilledTotal(b.cells, w, Red);
  }

  /**
   * A reshuffle: the ledger is kept, cells off the ledger and their set
   * membership are untouched, and with a duplicate-free ledger each ledger
   * cell takes its label, so the ledger's colours are only rearranged.
   */
  lemma RandomizeReshuffle(b: Board, w: seq<Status>)
    requires Wf(b) && |b.randomized| > 0 && IsShuffleOf(w, LedgerLabels(b))
    ensures var r := Randomize(b, w);
      && r.randomized == b.randomized
      && (forall d :: 0 <= d < |b.cells| && d !in b.randomized ==>
            r.cells[d] == b.cells[d] && (d in r.blue <==> d in b.blue) && (d in r.red <==> d in b.red))
      && (Distinct(b.randomized) ==>
            LedgerLabels(r) == w && multiset(LedgerLabels(r)) == multiset(LedgerLabels(b)))
  {
    assert |w| == |b.randomized| by {
      assert |multiset(w)| == |multiset(LedgerLabels(b))|;
    }
    ReshuffleFrame(b, w, 0);
    assert b.randomized[0..] == b.randomized;
    if Distinct(b.randomized) {
      ReshuffleWrites(b, w, 0);
    }
  }

  /**
   * A reshuffle of a full board with a duplicate-free ledger leaves it full
   * and counted, and consistent if it was.
   */
  lemma RandomizeReshuffleFull(b: Board, w: seq<Status>)
    requires Wf(b) && |b.randomized| > 0 && IsShuffleOf(w, LedgerLabels(b))
    requires Distinct(b.randomized) && Full(b)
    ensures var r := Randomize(b, w);
      Full(r) && Counted(r) && (Consistent(b) ==> Consistent(r))
  {
    RandomizeReshuffle(b, w);
    var r := Randomize(b, w);
    var v := LedgerLabels(b);
    assert Empty !in multiset(v);
    forall k | 0 <= k < |w|
      ensures w[k] != Empty
    {
      assert w[k] in multiset(w);
    }
    if Consistent(b) {
      ReshuffleConsistent(b, w, 0);
    }
    forall d | 0 <= d < |r.cells|
      ensures r.cells[d] != Empty
    {
      if d in b.randomized {
        var k :| 0 <= k < |b.randomized| && b.randomized[k] == d;
        assert LedgerLabels(r)[k] == w[k];
      }
    }
    assert Empty !in multiset(r.cells);
  }

  /**
   * One revert step on ledger slot `i`: the cell leaves the BLUE set if it
   * is BLUE and the RED set otherwise, becomes EMPTY and `occupied` is
   * decremented.
   */
  function RevertStep(b: Board, i: nat): (r: Board)
    requires InRange(b) && i < |b.randomized|
    ensures InRange(r) && r.size == b.size && r.last == b.last && r.randomized == b.randomized
    ensures r.cells == b.cells[b.randomized[i] := Empty] && r.occupied == Pred32(b.occupied)
  {
    var h := b.randomized[i];
    (if b.cells[h] == Blue then b.(blue := b.blue - {h}) else b.(red := b.red - {h}))
      .(cells := b.cells[h := Empty], occupied := Pred32(b.occupied))
  }

  /** A revert step only removes its own cell from a set, and keeps consistency. */
  lemma RevertStepSets(b: Board, i: nat)
    requires InRange(b) && i < |b.randomized|
    ensures var r := RevertStep(b, i);
      && r.blue <= b.blue && r.red <= b.red
      && (forall d :: d != b.randomized[i] ==> (d in r.blue <==> d in b.blue) && (d in r.red <==> d in b.red))
      && (Consistent(b) ==> Consistent(r))
  {}

  /** The revert loop from ledger slot `i` on. */
  function RevertLoop(b: Board, i: nat): (r: Board)
    requires InRange(b) && i <= |b.randomized|
    ensures InRange(r) && r.size == b.size && r.last == b.last
    ensures |r.cells| == |b.cells| && r.randomized == b.randomized
    decreases |b.randomized| - i
  {
    if i == |b.randomized| then b else RevertLoop(RevertStep(b, i), i + 1)
  }

  /** `revertRandom`: empty every ledger cell; the ledger is not cleared. */
  function RevertRandom(b: Board): (r: Board)
    requires Wf(b)
    ensures Wf(r) && r.size == b.size && r.last == b.last
    ensures |r.cells| == |b.cells| && r.randomized == b.randomized
  {
    RevertLoop(b, 0)
  }

  /** The revert loop empties every remaining ledger cell. */
  lemma {:induction false} RevertEmpties(b: Board, i: nat)
    requires InRange(b) && i <= |b.randomized|
    ensures var r := RevertLoop(b, i);
      forall k :: i <= k < |b.randomized| ==> r.cells[b.randomized[k]] == Empty
  {
    forall k | i <= k < |b.randomized|
      ensures RevertLoop(b, i).cells[b.randomized[k]] == Empty
    {
      RevertEmptiesAt(b, i, k);
    }
  }

  /** The revert loop from slot `i` empties the cell of slot `k >= i`. */
  lemma {:induction false} RevertEmptiesAt(b: Board, i: nat, k: nat)
    requires InRange(b) && i <= k < |b.randomized|
    ensures RevertLoop(b, i).cells[b.randomized[k]] == Empty
    decreases |b.randomized| - i
  {
    var b1 := RevertStep(b, i);
    var h := b.randomized[i];
    if k > i {
      RevertEmptiesAt(b1, i + 1, k);
    } else if h in b.randomized[i + 1..] {
      var k' :| i + 1 <= k' < |b.randomized| && b.randomized[k'] == h;
      RevertEmptiesAt(b1, i + 1, k');
    } else {
      RevertKeepsCell(b1, i + 1, h);
    }
  }

  /** The revert loop from slot `i` leaves a cell that is not on the rest of the ledger alone. */
  lemma {:induction false} RevertKeepsCell(b: Board, i: nat, d: nat)
    requires InRange(b) && i <= |b.randomized| && d !in b.randomized[i..]
    ensures d < |b.cells| ==> RevertLoop(b, i).cells[d] == b.cells[d]
    decreases |b.randomized| - i
  {
    if i < |b.randomized| {
      NotInSuffix(b.randomized, i, d);
      RevertKeepsCell(RevertStep(b, i), i + 1, d);
    }
  }

  /** The revert loop leaves every cell off the remaining ledger, and its set membership, alone. */
  lemma {:induction false} RevertFrame(b: Board, i: nat)
    requires InRange(b) && i <= |b.randomized|
    ensures var r := RevertLoop(b, i);
      forall d :: 0 <= d < |b.cells| && d !in b.randomized[i..] ==>
        r.cells[d] == b.cells[d] && (d in r.blue <==> d in b.blue) && (d in r.red <==> d in b.red)
    decreases |b.randomized| - i
  {
    if i < |b.randomized| {
      var b1 := RevertStep(b, i);
      RevertStepSets(b, i);
      RevertFrame(b1, i + 1);
      forall d | 0 <= d < |b.cells| && d !in b.randomized[i..]
        ensures d != b.randomized[i] && d !in b.randomized[i + 1..]
      {
        NotInSuffix(b.randomized, i, d);
      }
    }
  }

  /** The revert loop only removes set members. */
  lemma {:induction false} RevertShrinks(b: Board, i: nat)
    requires InRange(b) && i <= |b.randomized|
    ensures RevertLoop(b, i).blue <= b.blue && RevertLoop(b, i).red <= b.red
    decreases |b.randomized| - i
  {
    if i < |b.randomized| {
      RevertStepSets(b, i);
      RevertShrinks(RevertStep(b, i), i + 1);
    }
  }

  /** The revert loop counts `occupied` down once per remaining ledger slot, wrapping at zero. */
  lemma {:induction false} RevertOccupied(b: Board, i: nat)
    requires InRange(b) && i <= |b.randomized|
    ensures RevertLoop(b, i).occupied == (b.occupied - (|b.randomized| - i)) % TwoTo32
    decreases |b.randomized| - i
  {
    if i < |b.randomized| {
      RevertOccupied(RevertStep(b, i), i + 1);
      Pred32Shift(b.occupied, |b.randomized| - i - 1);
    }
  }

  /** The revert loop keeps the sets in step with the cells. */
  lemma {:induction false} RevertConsistent(b: Board, i: nat)
    requires InRange(b) && i <= |b.randomized| && Consistent(b)
    ensures Consistent(RevertLoop(b, i))
    decreases |b.randomized| - i
  {
    if i < |b.randomized| {
      RevertStepSets(b, i);
      RevertConsistent(RevertStep(b, i), i + 1);
    }
  }

  /**
   * With a duplicate-free ledger of occupied cells, the revert keeps the
   * counter invariant.
   */
  lemma {:induction false} RevertCounted(b: Board, i: nat)
    requires InRange(b) && i <= |b.randomized| && Distinct(b.randomized) && Counted(b)
    requires forall k :: i <= k < |b.randomized| ==> b.cells[b.randomized[k]] != Empty
    ensures Counted(RevertLoop(b, i))
    decreases |b.randomized| - i
  {
    if i < |b.randomized| {
      var h := b.randomized[i];
      var b1 := RevertStep(b, i);
      EmptyCountBelow(b.cells, h);
      assert b.cells[h] in multiset(b.cells);
      forall k | i + 1 <= k < |b.randomized|
        ensures b1.cells[b.randomized[k]] != Empty
      {
        assert b.randomized[k] != h;
      }
      RevertCounted(b1, i + 1);
    }
  }

  /**
   * The state a sequence of completions leaves relative to the board `m`
   * they started from: the ledger lists `m`'s empty cells, the board is
   * full and counted, and every cell that was occupied in `m` is unchanged.
   */
  predicate Completed(m: Board, r: Board)
    requires Wf(m) && Wf(r)
  {
    && r.size == m.size && |r.cells| == |m.cells|
    && r.randomized == EmptyIndices(m.cells)
    && Full(r) && Counted(r)
    && (forall d :: 0 <= d < |m.cells| && m.cells[d] != Empty ==> r.cells[d] == m.cells[d])
  }

  /** The first completion of a counted board with an empty ledger is completed. */
  lemma FreshCompletes(m: Board, w: seq<Status>)
    requires Wf(m) && Counted(m) && |m.randomized| == 0 && IsShuffleOf(w, FreshLabels(m))
    ensures Completed(m, Randomize(m, w))
  {
    RandomizeFresh(m, w);
  }

  /** Reshuffling a completed board keeps it completed. */
  lemma ReshuffleCompletes(m: Board, r: Board, w: seq<Status>)
    requires Wf(m) && Wf(r) && Completed(m, r) && |r.randomized| > 0
    requires IsShuffleOf(w, LedgerLabels(r))
    ensures Completed(m, Randomize(r, w))
  {
    RandomizeReshuffle(r, w);
    RandomizeReshuffleFull(r, w);
    var e := EmptyIndices(m.cells);
    forall d | 0 <= d < |m.cells| && m.cells[d] != Empty
      ensures d !in r.randomized
    {}
  }

  /** Reverting a completed board gives back the cells of the board the completions started from. */
  lemma RevertRestoresCells(m: Board, r: Board)
    requires Wf(m) && Wf(r) && Completed(m, r)
    ensures RevertRandom(r).cells == m.cells
  {
    var e := EmptyIndices(m.cells);
    RevertEmpties(r, 0);
    RevertFrame(r, 0);
    assert r.randomized[0..] == e;
    var u := RevertRandom(r);
    forall d | 0 <= d < |m.cells|
      ensures u.cells[d] == m.cells[d]
    {
      if m.cells[d] == Empty {
        var k :| 0 <= k < |e| && e[k] == d;
        assert u.cells[e[k]] == Empty;
      } else {
        assert d !in r.randomized[0..];
      }
    }
  }

  /** Reverting a completed board gives back the counter of the board the completions started from. */
  lemma RevertRestoresOccupied(m: Board, r: Board)
    requires Wf(m) && Wf(r) && Counted(m) && Completed(m, r)
    ensures RevertRandom(r).occupied == m.occupied
  {
    RevertOccupied(r, 0);
    assert Empty !in multiset(r.cells);
    assert r.occupied == |r.cells|;
    ModUnique(r.occupied - |r.randomized|, 0, m.occupied);
  }

  /**
   * Reverting a completed board gives back the cells and the counter of the
   * board the completions started from, and its sets when both boards keep
   * the sets in step with the cells. The ledger stays filled.
   */
  lemma RevertRestores(m: Board, r: Board)
    requires Wf(m) && Wf(r) && Counted(m) && Completed(m, r)
    ensures var u := RevertRandom(r);
      && u.cells == m.cells && u.occupied == m.occupied
      && u.randomized == EmptyIndices(m.cells)
      && (Consistent(m) && Consistent(r) ==> u.blue == m.blue && u.red == m.red)
  {
    RevertRestoresCells(m, r);
    RevertRestoresOccupied(m, r);
    if Consistent(m) && Consistent(r) {
      RevertConsistent(r, 0);
      SetsFollowCells(m, RevertRandom(r));
    }
  }

  /** Two consistent boards with the same cells have the same sets. */
  lemma SetsFollowCells(b: Board, b': Board)
    requires Consistent(b) && Consistent(b') && b.cells == b'.cells
    ensures b.blue == b'.blue && b.red == b'.red
  {}

  /**
   * A fresh completion followed by `revertRandom` restores the cells, the
   * counter and (on a consistent board) the sets; only the ledger of the
   * completed cells remains.
   */
  lemma RandomizeRevertRoundTrip(b: Board, w: seq<Status>)
    requires Wf(b) && Counted(b) && |b.randomized| == 0 && IsShuffleOf(w, FreshLabels(b))
    ensures var u := RevertRandom(Randomize(b, w));
      && u.cells == b.cells && u.occupied == b.occupied
      && u.randomized == EmptyIndices(b.cells)
      && (Consistent(b) ==> u.blue == b.blue && u.red == b.red)
  {
    FreshCompletes(b, w);
    if Consistent(b) {
      RandomizeFreshConsistent(b, w);
    }
    RevertRestores(b, Randomize(b, w));
  }
}
