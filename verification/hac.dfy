/**
 * Lance-Williams hierarchical agglomerative clustering (src/LanceWilliamsHAC.c).
 *
 * The clustering state is an upper-triangular distance matrix between cluster
 * slots and an array holding the dendrogram of every slot.  A zero entry marks a
 * pair that is no longer (or never was) a candidate; a slot whose dendrogram is
 * gone (NULL) has been merged into another one.  Each round scans for the
 * minimal non-zero entry, merges the pair into a new link node and updates the
 * distances of the surviving slot with single (min) or complete (max) linkage.
 */
module LanceWilliamsHAC {
  import opened Graph

  // ---------------------------------------------------------------------------
  // Distances

  /** A cluster distance: a finite value, or INFINITY (the largest double). Fin(0.0) marks "no candidate". */
  datatype Dist = Fin(r: real) | Inf

  const Zero: Dist := Fin(0.0)

  /** A distance that can occur in the matrix: INFINITY or a non-negative value. */
  predicate NonNeg(x: Dist) {
    x.Inf? || x.r >= 0.0
  }

  /** The comparison `x <= y` on doubles, INFINITY being above every finite value. */
  predicate Le(x: Dist, y: Dist) {
    y.Inf? || (x.Fin? && x.r <= y.r)
  }

  /** min(): the smaller argument; INFINITY is only returned when both are INFINITY. */
  function Min(x: Dist, y: Dist): (r: Dist)
    ensures r == x || r == y
    ensures Le(r, x) && Le(r, y)
  {
    if x.Inf? && y.Inf? then Inf
    else if x.Inf? then y
    else if y.Inf? then x
    else if x.r > y.r then y else x
  }

  /**
   * max(): the larger of two finite arguments, but INFINITY acts as an identity:
   * max(x, INFINITY) == x, so a finite distance beats an infinite one.
   */
  function Max(x: Dist, y: Dist): (r: Dist)
    ensures r == x || r == y
    ensures x.Inf? && y.Fin? ==> r == y
    ensures x.Fin? && y.Inf? ==> r == x
    ensures x.Fin? && y.Fin? ==> Le(x, r) && Le(y, r)
  {
    if x.Inf? && y.Inf? then Inf
    else if x.Inf? then y
    else if y.Inf? then x
    else if x.r > y.r then x else y
  }

  /** Single linkage never yields a larger distance than complete linkage. */
  lemma SingleBelowComplete(x: Dist, y: Dist)
    ensures Le(Min(x, y), Max(x, y))
  {
    if x.Fin? && y.Fin? {
      assert Min(x, y).r <= x.r <= Max(x, y).r;
    }
  }

  /** calDistance(): the reciprocal of the heavier of two edge weights. */
  function CalDistance(x: Dist, y: Dist): (r: Dist)
    requires Max(x, y).Fin? && Max(x, y).r != 0.0
    ensures r.Fin? && r.r * Max(x, y).r == 1.0
    ensures Max(x, y).r > 0.0 ==> r.r > 0.0
  {
    Fin(1.0 / Max(x, y).r)
  }

  datatype Linkage = Single | Complete

  /** The Lance-Williams update of the merged cluster's distance to a third cluster. */
  function Link(linkage: Linkage, x: Dist, y: Dist): (r: Dist)
    ensures linkage == Single ==> r == Min(x, y)
    ensures linkage == Complete ==> r == Max(x, y)
  {
    match linkage
    case Single => Min(x, y)
    case Complete => Max(x, y)
  }

  /** Linking two live distances gives a live distance; linking two zeros gives zero. */
  lemma LinkLive(linkage: Linkage, x: Dist, y: Dist)
    requires NonNeg(x) && NonNeg(y) && (x == Zero <==> y == Zero)
    ensures NonNeg(Link(linkage, x, y))
    ensures Link(linkage, x, y) == Zero <==> x == Zero
  {
  }

  // ---------------------------------------------------------------------------
  // Dendrograms

  datatype Option<T> = None | Some(value: T)

  /** A dendrogram node: a leaf holds a vertex, a link node holds -1 and two subtrees. */
  datatype Dendrogram = DNode(vertex: int, left: Option<Dendrogram>, right: Option<Dendrogram>)

  predicate IsLeaf(d: Dendrogram) {
    d.left.None? && d.right.None?
  }

  /** The vertices held by the leaves, with multiplicity. */
  ghost function Leaves(d: Dendrogram): multiset<int>
    decreases d
  {
    if IsLeaf(d) then multiset{d.vertex}
    else
      (if d.left.Some? then Leaves(d.left.value) else multiset{}) +
      (if d.right.Some? then Leaves(d.right.value) else multiset{})
  }

  ghost function InternalCount(d: Dendrogram): nat
    decreases d
  {
    if IsLeaf(d) then 0
    else
      1 + (if d.left.Some? then InternalCount(d.left.value) else 0) +
      (if d.right.Some? then InternalCount(d.right.value) else 0)
  }

  /** Leaves hold a vertex id; every other node is a link node (-1) with two children. */
  ghost predicate WellShaped(d: Dendrogram)
    decreases d
  {
    if IsLeaf(d) then d.vertex >= 0
    else
      && d.vertex == -1 && d.left.Some? && d.right.Some?
      && WellShaped(d.left.value) && WellShaped(d.right.value)
  }

  /** A binary tree with n leaves has n - 1 internal nodes. */
  lemma {:induction false} LeavesCount(d: Dendrogram)
    requires WellShaped(d)
    ensures |Leaves(d)| == InternalCount(d) + 1
    decreases d
  {
    if !IsLeaf(d) {
      LeavesCount(d.left.value);
      LeavesCount(d.right.value);
    }
  }

  /** newDNode(): a leaf for vertex v. */
  function NewDNode(v: int): (r: Dendrogram)
    ensures IsLeaf(r) && Leaves(r) == multiset{v} && InternalCount(r) == 0
    ensures WellShaped(r) <==> v >= 0
  {
    DNode(v, None, None)
  }

  /** newLinkNode(): a link node over the dendrograms of the two merged slots. */
  function NewLinkNode(a: Option<Dendrogram>, b: Option<Dendrogram>): (r: Dendrogram)
    requires a.Some? && b.Some?
    ensures r.vertex == -1 && !IsLeaf(r)
    ensures Leaves(r) == Leaves(a.value) + Leaves(b.value)
    ensures InternalCount(r) == InternalCount(a.value) + InternalCount(b.value) + 1
    ensures WellShaped(r) <==> WellShaped(a.value) && WellShaped(b.value)
  {
    DNode(-1, a, b)
  }

  // ---------------------------------------------------------------------------
  // The dendrogram slots (NULL = None)

  ghost function OptLeaves(o: Option<Dendrogram>): multiset<int> {
    if o.Some? then Leaves(o.value) else multiset{}
  }

  /** The leaves of every slot. */
  ghost function SlotBags(slots: seq<Option<Dendrogram>>): (r: seq<multiset<int>>)
    ensures |r| == |slots| && forall i :: 0 <= i < |slots| ==> r[i] == OptLeaves(slots[i])
  {
    seq(|slots|, i requires 0 <= i < |slots| => OptLeaves(slots[i]))
  }

  ghost function Sum(bags: seq<multiset<int>>): multiset<int> {
    if bags == [] then multiset{} else Sum(bags[..|bags| - 1]) + bags[|bags| - 1]
  }

  /** All the leaves held by the slots. */
  ghost function SlotLeaves(slots: seq<Option<Dendrogram>>): multiset<int> {
    Sum(SlotBags(slots))
  }

  /** The number of slots still holding a dendrogram. */
  function ActiveCount(slots: seq<Option<Dendrogram>>): nat {
    if slots == [] then 0
    else ActiveCount(slots[..|slots| - 1]) + (if slots[|slots| - 1].Some? then 1 else 0)
  }

  ghost predicate AllWellShaped(slots: seq<Option<Dendrogram>>) {
    forall i :: 0 <= i < |slots| && slots[i].Some? ==> WellShaped(slots[i].value)
  }

  /** The vertices 0 .. n-1, each once. */
  ghost function Vertices(n: nat): multiset<int> {
    if n == 0 then multiset{} else Vertices(n - 1) + multiset{n - 1}
  }

  lemma {:induction false} VerticesCount(n: nat)
    ensures |Vertices(n)| == n
    ensures forall v :: v in Vertices(n) <==> 0 <= v < n
    ensures forall v :: Vertices(n)[v] <= 1
  {
    if n > 0 {
      VerticesCount(n - 1);
    }
  }

  /** Replacing one bag changes the sum by that bag only. */
  lemma {:induction false} SumUpdate(bags: seq<multiset<int>>, i: nat, x: multiset<int>)
    requires i < |bags|
    ensures Sum(bags[i := x]) + bags[i] == Sum(bags) + x
    decreases |bags|
  {
    var last := |bags| - 1;
    var init := bags[..last];
    var b' := bags[i := x];
    assert Sum(bags) == Sum(init) + bags[last];
    if i < last {
      assert b'[..last] == init[i := x];
      SumUpdate(init, i, x);
      assert Sum(b') == Sum(init[i := x]) + bags[last];
      assert init[i] == bags[i];
      calc {
        Sum(b') + bags[i];
        Sum(init[i := x]) + bags[last] + init[i];
        (Sum(init[i := x]) + init[i]) + bags[last];
        Sum(init) + x + bags[last];
        Sum(bags) + x;
      }
    } else {
      assert b'[..last] == init;
      assert Sum(b') == Sum(init) + x;
    }
  }

  /** Replacing one slot changes the leaves by that slot only. */
  lemma SlotUpdate(slots: seq<Option<Dendrogram>>, i: nat, x: Option<Dendrogram>)
    requires i < |slots|
    ensures SlotLeaves(slots[i := x]) + OptLeaves(slots[i]) == SlotLeaves(slots) + OptLeaves(x)
  {
    assert SlotBags(slots[i := x]) == SlotBags(slots)[i := OptLeaves(x)];
    SumUpdate(SlotBags(slots), i, OptLeaves(x));
  }

  /** Cancelling the slot that was emptied. */
  lemma CancelEmptied(rest: multiset<int>, removed: multiset<int>, all: multiset<int>)
    requires rest == multiset{} && rest + removed == all + multiset{}
    ensures all == removed
  {
    forall v
      ensures all[v] == removed[v]
    {
      assert (rest + removed)[v] == (all + multiset{})[v];
    }
  }

  /** Cancelling the two merged slots' leaves, which reappear under the new link node. */
  lemma CancelMerged(after: multiset<int>, between: multiset<int>, before: multiset<int>, a: multiset<int>, b: multiset<int>)
    requires between + a == before + (a + b) && after + b == between
    ensures after == before
  {
    forall v
      ensures after[v] == before[v]
    {
      assert (between + a)[v] == (before + (a + b))[v];
      assert (after + b)[v] == between[v];
    }
  }

  /** Replacing one slot changes the count by that slot only. */
  lemma {:induction false} CountUpdate(slots: seq<Option<Dendrogram>>, i: nat, x: Option<Dendrogram>)
    requires i < |slots|
    ensures ActiveCount(slots[i := x]) + (if slots[i].Some? then 1 else 0)
         == ActiveCount(slots) + (if x.Some? then 1 else 0)
    decreases |slots|
  {
    var last := |slots| - 1;
    if i < last {
      assert slots[i := x][..last] == slots[..last][i := x];
      CountUpdate(slots[..last], i, x);
    } else {
      assert slots[i := x][..last] == slots[..last];
    }
  }

  /** Two slots are active exactly when the count is at least two. */
  lemma {:induction false} TwoActive(slots: seq<Option<Dendrogram>>)
    ensures ActiveCount(slots) >= 2 <==>
            exists i, j :: 0 <= i < j < |slots| && slots[i].Some? && slots[j].Some?
    ensures ActiveCount(slots) >= 1 <==> exists i :: 0 <= i < |slots| && slots[i].Some?
    decreases |slots|
  {
    if slots != [] {
      var last := |slots| - 1;
      var init := slots[..last];
      TwoActive(init);
      assert forall i :: 0 <= i < last ==> slots[i] == init[i];
      if ActiveCount(slots) >= 2 && slots[last].Some? {
        var i :| 0 <= i < |init| && init[i].Some?;
        assert slots[i].Some? && slots[last].Some?;
      }
      if ActiveCount(slots) >= 1 && slots[last].None? {
        var i :| 0 <= i < |init| && init[i].Some?;
        assert slots[i].Some?;
      }
      if exists i, j :: 0 <= i < j < |slots| && slots[i].Some? && slots[j].Some? {
        var i, j :| 0 <= i < j < |slots| && slots[i].Some? && slots[j].Some?;
        if j < last {
          assert init[i].Some? && init[j].Some?;
        } else {
          assert init[i].Some?;
        }
      }
      if exists i :: 0 <= i < |slots| && slots[i].Some? {
        var i :| 0 <= i < |slots| && slots[i].Some?;
        if i < last {
          assert init[i].Some?;
        }
      }
    }
  }

  /** With no active slot there are no leaves. */
  lemma {:induction false} NoActive(slots: seq<Option<Dendrogram>>)
    requires ActiveCount(slots) == 0
    ensures SlotLeaves(slots) == multiset{}
    decreases |slots|
  {
    if slots != [] {
      var last := |slots| - 1;
      NoActive(slots[..last]);
      assert SlotBags(slots)[..last] == SlotBags(slots[..last]);
    }
  }

  /** When a single slot is active, its dendrogram holds all the leaves. */
  lemma SoleActive(slots: seq<Option<Dendrogram>>, k: nat)
    requires k < |slots| && slots[k].Some? && ActiveCount(slots) < 2
    ensures SlotLeaves(slots) == Leaves(slots[k].value)
  {
    SlotUpdate(slots, k, None);
    CountUpdate(slots, k, None);
    NoActive(slots[k := None]);
    assert OptLeaves(None) == multiset{};
    CancelEmptied(SlotLeaves(slots[k := None]), OptLeaves(slots[k]), SlotLeaves(slots));
  }

  /** The slots of newly created leaves, one per vertex. */
  function InitialSlots(n: nat): (r: seq<Option<Dendrogram>>)
    ensures |r| == n && forall i :: 0 <= i < n ==> r[i] == Some(NewDNode(i))
  {
    seq(n, i => Some(NewDNode(i)))
  }

  lemma {:induction false} InitialSlotsFacts(n: nat)
    ensures SlotLeaves(InitialSlots(n)) == Vertices(n)
    ensures ActiveCount(InitialSlots(n)) == n
    ensures AllWellShaped(InitialSlots(n))
  {
    if n > 0 {
      assert InitialSlots(n)[..n - 1] == InitialSlots(n - 1);
      assert SlotBags(InitialSlots(n))[..n - 1] == SlotBags(InitialSlots(n - 1));
      InitialSlotsFacts(n - 1);
    }
  }

  /** The slots after merging v2 into v1: v1 holds the new link node and v2 is emptied. */
  function MergedSlots(slots: seq<Option<Dendrogram>>, v1: nat, v2: nat): (r: seq<Option<Dendrogram>>)
    requires v1 < |slots| && v2 < |slots| && slots[v1].Some? && slots[v2].Some?
    ensures |r| == |slots| && r[v2] == None
    ensures v1 != v2 ==> r[v1] == Some(NewLinkNode(slots[v1], slots[v2]))
    ensures forall k :: 0 <= k < |slots| && k != v1 && k != v2 ==> r[k] == slots[k]
  {
    slots[v1 := Some(NewLinkNode(slots[v1], slots[v2]))][v2 := None]
  }

  /** A merge keeps every leaf, and the shape of every tree, and removes exactly one active slot. */
  lemma MergedSlotsFacts(slots: seq<Option<Dendrogram>>, v1: nat, v2: nat)
    requires v1 < |slots| && v2 < |slots| && v1 != v2 && slots[v1].Some? && slots[v2].Some?
    requires AllWellShaped(slots)
    ensures SlotLeaves(MergedSlots(slots, v1, v2)) == SlotLeaves(slots)
    ensures ActiveCount(MergedSlots(slots, v1, v2)) == ActiveCount(slots) - 1
    ensures AllWellShaped(MergedSlots(slots, v1, v2))
    ensures MergedSlots(slots, v1, v2)[v1].Some? && MergedSlots(slots, v1, v2)[v2].None?
  {
    MergedLeaves(slots, v1, v2);
    MergedCount(slots, v1, v2);
    MergedShaped(slots, v1, v2);
  }

  lemma MergedShaped(slots: seq<Option<Dendrogram>>, v1: nat, v2: nat)
    requires v1 < |slots| && v2 < |slots| && v1 != v2 && slots[v1].Some? && slots[v2].Some?
    requires AllWellShaped(slots)
    ensures AllWellShaped(MergedSlots(slots, v1, v2))
    ensures MergedSlots(slots, v1, v2)[v1].Some? && MergedSlots(slots, v1, v2)[v2].None?
  {
    var node := NewLinkNode(slots[v1], slots[v2]);
    assert WellShaped(node);
  }

  lemma MergedLeaves(slots: seq<Option<Dendrogram>>, v1: nat, v2: nat)
    requires v1 < |slots| && v2 < |slots| && v1 != v2 && slots[v1].Some? && slots[v2].Some?
    ensures SlotLeaves(MergedSlots(slots, v1, v2)) == SlotLeaves(slots)
  {
    var node := Some(NewLinkNode(slots[v1], slots[v2]));
    var mid := slots[v1 := node];
    var a, b := OptLeaves(slots[v1]), OptLeaves(slots[v2]);
    var before, between := SlotLeaves(slots), SlotLeaves(mid);
    assert between + a == before + (a + b) by {
      SlotUpdate(slots, v1, node);
      assert OptLeaves(node) == a + b;
    }
    assert SlotLeaves(mid[v2 := None]) + b == between by {
      SlotUpdate(mid, v2, None);
      assert OptLeaves(None) == multiset{};
    }
    CancelMerged(SlotLeaves(mid[v2 := None]), between, before, a, b);
  }

  lemma MergedCount(slots: seq<Option<Dendrogram>>, v1: nat, v2: nat)
    requires v1 < |slots| && v2 < |slots| && v1 != v2 && slots[v1].Some? && slots[v2].Some?
    ensures ActiveCount(MergedSlots(slots, v1, v2)) == ActiveCount(slots) - 1
  {
    var node := Some(NewLinkNode(slots[v1], slots[v2]));
    CountUpdate(slots, v1, node);
    CountUpdate(slots[v1 := node], v2, None);
  }

  // ---------------------------------------------------------------------------
  // The initial distance matrix

  /**
   * The entry directDistance[i][j] left by the walk over the out-list of i: the
   * weight of the last edge i -> j (a later edge overwrites an earlier one), or 0.
   */
  function DirectWeight(adj: seq<Edge>, j: nat): (w: int)
    ensures (forall k :: 0 <= k < |adj| ==> adj[k].weight > 0) ==> w >= 0
    ensures w != 0 ==> Edge(j, w) in adj
  {
    if adj == [] then 0
    else if adj[|adj| - 1].v == j then adj[|adj| - 1].weight
    else DirectWeight(adj[..|adj| - 1], j)
  }

  /** With no edge to j in the list the entry stays 0. */
  lemma {:induction false} DirectWeightAbsent(adj: seq<Edge>, j: nat)
    requires forall k :: 0 <= k < |adj| ==> adj[k].v != j
    ensures DirectWeight(adj, j) == 0
    decreases |adj|
  {
    if adj != [] {
      var init := adj[..|adj| - 1];
      assert forall k :: 0 <= k < |init| ==> init[k] == adj[k];
      DirectWeightAbsent(init, j);
    }
  }

  /** With an edge to j at index k0 the entry is the weight of the last edge to j, at k0 or after it. */
  lemma {:induction false} DirectWeightLastEdge(adj: seq<Edge>, j: nat, k0: nat) returns (k: nat)
    requires k0 < |adj| && adj[k0].v == j
    ensures k0 <= k < |adj| && adj[k] == Edge(j, DirectWeight(adj, j))
    ensures forall k' :: k < k' < |adj| ==> adj[k'].v != j
    decreases |adj|
  {
    var last := |adj| - 1;
    if adj[last].v == j {
      k := last;
    } else {
      var init := adj[..last];
      assert init[k0] == adj[k0];
      k := DirectWeightLastEdge(init, j, k0);
      assert init[k] == adj[k];
    }
  }

  /**
   * The initial distance between clusters {i} and {j}: stored for i < j only, INFINITY
   * when there is no edge either way, otherwise the reciprocal of the heavier direction.
   */
  function InitialEntry(g: Graph, i: nat, j: nat): (r: Dist)
    requires ValidGraph(g) && i < |g| && j < |g|
    ensures i >= j ==> r == Zero
    ensures i < j ==> NonNeg(r) && r != Zero
    ensures i < j ==> (r == Inf <==> DirectWeight(g[i], j) == 0 && DirectWeight(g[j], i) == 0)
  {
    if i < j then
      var a, b := DirectWeight(g[j], i), DirectWeight(g[i], j);
      if b == 0 && a == 0 then Inf
      else
        HeavierPositive(a, b);
        CalDistance(Fin(a as real), Fin(b as real))
    else Zero
  }

  /** A finite initial distance is the reciprocal of the heavier of the two directed weights. */
  lemma InitialReciprocal(g: Graph, i: nat, j: nat)
    requires ValidGraph(g) && i < j < |g| && InitialEntry(g, i, j).Fin?
    ensures Heavier(g, i, j).Fin? && InitialEntry(g, i, j).r * Heavier(g, i, j).r == 1.0
  {
    var a, b := DirectWeight(g[j], i), DirectWeight(g[i], j);
    assert !(a == 0 && b == 0);
    HeavierPositive(a, b);
    var r := CalDistance(Fin(a as real), Fin(b as real));
    assert InitialEntry(g, i, j) == r;
    var h := Heavier(g, i, j);
    assert h == Max(Fin(a as real), Fin(b as real));
    assert r.r * h.r == 1.0;
  }

  /** The heavier of the two directed weights between i and j (0 for a missing direction). */
  function Heavier(g: Graph, i: nat, j: nat): Dist
    requires i < |g| && j < |g|
  {
    Max(Fin(DirectWeight(g[j], i) as real), Fin(DirectWeight(g[i], j) as real))
  }

  /** At least one of two non-negative weights is positive, so the heavier one is. */
  lemma HeavierPositive(a: int, b: int)
    requires a >= 0 && b >= 0 && !(a == 0 && b == 0)
    ensures Max(Fin(a as real), Fin(b as real)).Fin? && Max(Fin(a as real), Fin(b as real)).r > 0.0
  {
  }

  /** The directDistance matrix: the walk over every out-list. */
  method DirectDistances(g: Graph) returns (directDistance: array2<int>)
    requires ValidGraph(g)
    ensures fresh(directDistance)
    ensures directDistance.Length0 == |g| && directDistance.Length1 == |g|
    ensures forall i, j :: 0 <= i < |g| && 0 <= j < |g| ==> directDistance[i, j] == DirectWeight(g[i], j)
  {
    var n := |g|;
    directDistance := new int[n, n]((i, j) => 0);
    for i := 0 to n
      invariant forall p, q :: 0 <= p < i && 0 <= q < n ==> directDistance[p, q] == DirectWeight(g[p], q)
      invariant forall p, q :: i <= p < n && 0 <= q < n ==> directDistance[p, q] == 0
    {
      var out := g[i];
      for k := 0 to |out|
        invariant forall p, q :: 0 <= p < i && 0 <= q < n ==> directDistance[p, q] == DirectWeight(g[p], q)
        invariant forall q :: 0 <= q < n ==> directDistance[i, q] == DirectWeight(out[..k], q)
        invariant forall p, q :: i < p < n && 0 <= q < n ==> directDistance[p, q] == 0
      {
        assert out[..k + 1][..k] == out[..k];
        directDistance[i, out[k].v] := out[k].weight;
      }
      assert out[..|out|] == out;
    }
  }

  // ---------------------------------------------------------------------------
  // The clustering state

  /** The pair (i, j) comes after (a, b) in the row-major scan order. */
  predicate After(i: int, j: int, a: int, b: int) {
    i > a || (i == a && j > b)
  }

  /** The Shape record: the distance matrix, the dendrogram slots and the linkage method. */
  class Shape {
    const nV: nat
    const distance: array2<Dist>
    const dendro: array<Option<Dendrogram>>
    const linkage: Linkage

    predicate Sized() {
      distance.Length0 == nV && distance.Length1 == nV && dendro.Length == nV
    }

    /** The entry of the unordered pair {i, j}, stored in the upper triangle. */
    function At(i: nat, j: nat): Dist
      requires Sized() && i < nV && j < nV
      reads distance
    {
      if i < j then distance[i, j] else distance[j, i]
    }

    /**
     * The clustering invariant: an entry is non-zero exactly above the diagonal
     * between two slots that still hold a dendrogram; every entry is INFINITY or
     * non-negative; every dendrogram is a well-formed binary tree.
     */
    ghost predicate Valid()
      reads distance, dendro
    {
      && Sized()
      && (forall i, j :: 0 <= i < nV && 0 <= j < nV ==>
            (distance[i, j] != Zero <==> i < j && dendro[i].Some? && dendro[j].Some?))
      && (forall i, j :: 0 <= i < nV && 0 <= j < nV ==> NonNeg(distance[i, j]))
      && AllWellShaped(dendro[..])
    }

    /** No non-zero entry is left above the diagonal. */
    ghost predicate Exhausted()
      requires Sized()
      reads distance
    {
      forall i, j :: 0 <= i < j < nV ==> distance[i, j] == Zero
    }

    /**
     * (a, b) is the pair cluster() picks: a non-zero entry above the diagonal that is
     * no larger than any other, and strictly smaller than every one scanned after it.
     */
    ghost predicate IsClosest(a: int, b: int)
      requires Sized()
      reads distance
    {
      && 0 <= a < b < nV && distance[a, b] != Zero
      && forall i, j :: 0 <= i < j < nV && distance[i, j] != Zero ==>
           Le(distance[a, b], distance[i, j]) && (After(i, j, a, b) ==> !Le(distance[i, j], distance[a, b]))
    }

    /** Under the invariant, the matrix is exhausted exactly when fewer than two slots are active. */
    lemma ExhaustedIff()
      requires Valid()
      ensures Exhausted() <==> ActiveCount(dendro[..]) < 2
    {
      TwoActive(dendro[..]);
      if !Exhausted() {
        var i, j :| 0 <= i < j < nV && distance[i, j] != Zero;
        assert dendro[..][i].Some? && dendro[..][j].Some?;
      }
      if ActiveCount(dendro[..]) >= 2 {
        var i, j :| 0 <= i < j < nV && dendro[..][i].Some? && dendro[..][j].Some?;
        assert distance[i, j] != Zero;
      }
    }

    /** The initialisation of LanceWilliamsHAC: leaves in every slot and the initial matrix. */
    constructor (g: Graph, linkage: Linkage)
      requires ValidGraph(g)
      ensures Valid() && nV == |g| && this.linkage == linkage
      ensures fresh(distance) && fresh(dendro)
      ensures dendro[..] == InitialSlots(|g|)
      ensures forall i, j :: 0 <= i < nV && 0 <= j < nV ==> distance[i, j] == InitialEntry(g, i, j)
    {
      var n := |g|;
      nV := n;
      this.linkage := linkage;
      distance := new Dist[n, n]((i, j) => Zero);
      dendro := new Option<Dendrogram>[n](i => Some(NewDNode(i)));
      new;
      var directDistance := DirectDistances(g);
      InitialDistances(g, directDistance);
      assert dendro[..] == InitialSlots(n);
      InitialValid(g);
    }

    /** The initial matrix and the singleton slots form a valid state. */
    lemma InitialValid(g: Graph)
      requires ValidGraph(g) && Sized() && nV == |g| && dendro[..] == InitialSlots(nV)
      requires forall i, j :: 0 <= i < nV && 0 <= j < nV ==> distance[i, j] == InitialEntry(g, i, j)
      ensures Valid()
    {
      InitialSlotsFacts(nV);
      forall i, j | 0 <= i < nV && 0 <= j < nV
        ensures distance[i, j] != Zero <==> i < j && dendro[i].Some? && dendro[j].Some?
        ensures NonNeg(distance[i, j])
      {
        var e := InitialEntry(g, i, j);
        assert distance[i, j] == e;
        assert dendro[i] == InitialSlots(nV)[i];
      }
    }

    /** The loop of LanceWilliamsHAC filling the upper triangle from directDistance. */
    method InitialDistances(g: Graph, directDistance: array2<int>)
      requires ValidGraph(g) && Sized() && nV == |g|
      requires directDistance.Length0 == |g| && directDistance.Length1 == |g|
      requires forall i, j :: 0 <= i < |g| && 0 <= j < |g| ==> directDistance[i, j] == DirectWeight(g[i], j)
      requires forall i, j :: 0 <= i < nV && 0 <= j < nV ==> distance[i, j] == Zero
      modifies distance
      ensures forall i, j :: 0 <= i < nV && 0 <= j < nV ==> distance[i, j] == InitialEntry(g, i, j)
    {
      for i := 0 to nV
        invariant forall p, q :: 0 <= p < i && 0 <= q < nV ==> distance[p, q] == InitialEntry(g, p, q)
        invariant forall p, q :: i <= p < nV && 0 <= q < nV ==> distance[p, q] == Zero
      {
        for j := i + 1 to nV
          invariant forall p, q :: 0 <= p < i && 0 <= q < nV ==> distance[p, q] == InitialEntry(g, p, q)
          invariant forall q :: 0 <= q < j ==> distance[i, q] == InitialEntry(g, i, q)
          invariant forall q :: j <= q < nV ==> distance[i, q] == Zero
          invariant forall p, q :: i < p < nV && 0 <= q < nV ==> distance[p, q] == Zero
        {
          var entry;
          if directDistance[i, j] == 0 && directDistance[j, i] == 0 {
            entry := Inf;
          } else {
            var a := directDistance[j, i] as real;
            var b := directDistance[i, j] as real;
            HeavierPositive(directDistance[j, i], directDistance[i, j]);
            entry := CalDistance(Fin(a), Fin(b));
          }
          assert entry == InitialEntry(g, i, j);
          distance[i, j] := entry;
        }
      }
    }

    /**
     * The scan of cluster(): the last pair, in row-major order, holding the minimal
     * non-zero entry, or (-1, -1) when every entry is zero.
     */
    method FindClosest() returns (a: int, b: int)
      requires Sized()
      ensures a == -1 <==> b == -1
      ensures a == -1 <==> Exhausted()
      ensures a != -1 ==> IsClosest(a, b)
    {
      var minimum := Inf;
      a, b := -1, -1;
      for i := 0 to nV
        invariant ScanInv(i, 0, minimum, a, b)
      {
        for j := i + 1 to nV
          invariant ScanInv(i, j, minimum, a, b)
        {
          if distance[i, j] != Zero {
            if Le(distance[i, j], minimum) {
              minimum := distance[i, j];
              a, b := i, j;
            }
          }
        }
      }
    }

    /** What the scan knows after the rows before i and the columns before j of row i. */
    ghost predicate ScanInv(i: int, j: int, minimum: Dist, a: int, b: int)
      requires Sized()
      reads distance
    {
      && (a == -1 <==> b == -1)
      && (a == -1 ==>
            && minimum == Inf
            && forall p, q :: 0 <= p < q < nV && !After(p, q, i, j - 1) ==> distance[p, q] == Zero)
      && (a != -1 ==>
            && 0 <= a < b < nV && !After(a, b, i, j - 1) && distance[a, b] != Zero && minimum == distance[a, b]
            && forall p, q :: 0 <= p < q < nV && !After(p, q, i, j - 1) && distance[p, q] != Zero ==>
                 Le(minimum, distance[p, q]) && (After(p, q, a, b) ==> !Le(distance[p, q], minimum)))
    }

    /**
     * cluster(): scans for the closest pair; returns -1 (MERGED) when none is left,
     * otherwise merges the pair (a, b) and returns a.
     */
    method Cluster() returns (a: int, ghost b: int)
      requires Valid()
      modifies distance, dendro
      ensures Valid()
      ensures a == -1 <==> old(Exhausted())
      ensures a == -1 <==> old(ActiveCount(dendro[..])) < 2
      ensures a == -1 ==> unchanged(distance, dendro)
      ensures a != -1 ==> old(IsClosest(a, b)) && old(dendro[a].Some? && dendro[b].Some?)
      ensures a != -1 ==> dendro[..] == MergedSlots(old(dendro[..]), a, b)
      ensures a != -1 ==> forall k :: 0 <= k < nV ==> At(b, k) == Zero
      ensures a != -1 ==> forall k :: 0 <= k < nV && k != a && k != b ==>
                At(a, k) == Link(linkage, old(At(a, k)), old(At(b, k)))
      ensures a != -1 ==> forall i, j :: 0 <= i < nV && 0 <= j < nV && i != a && i != b && j != a && j != b ==>
                distance[i, j] == old(distance[i, j])
    {
      ExhaustedIff();
      var x, y := FindClosest();
      if x == -1 && y == -1 {
        return -1, -1;
      }
      Merge(x, y);
      a, b := x, y;
    }

    /** What the driver loop relies on from one call of cluster(): one active slot fewer, same leaves. */
    method ClusterRound() returns (a: int)
      requires Valid()
      modifies distance, dendro
      ensures Valid()
      ensures a == -1 <==> old(ActiveCount(dendro[..])) < 2
      ensures a == -1 ==> dendro[..] == old(dendro[..])
      ensures a != -1 ==> 0 <= a < nV && dendro[a].Some?
      ensures a != -1 ==> ActiveCount(dendro[..]) == old(ActiveCount(dendro[..])) - 1
      ensures SlotLeaves(dendro[..]) == old(SlotLeaves(dendro[..]))
    {
      ghost var before := dendro[..];
      ghost var b;
      a, b := Cluster();
      if a != -1 {
        MergedSlotsFacts(before, a, b);
      }
    }

    /**
     * The loop of LanceWilliamsHAC: clusters until cluster() reports MERGED and returns
     * the slot of the last merge (slot 0 when no merge happens).
     */
    method ClusterAll() returns (index: nat, ghost merges: nat)
      requires Valid() && nV >= 1 && dendro[0].Some?
      modifies distance, dendro
      ensures Valid() && index < nV && dendro[index].Some? && ActiveCount(dendro[..]) < 2
      ensures SlotLeaves(dendro[..]) == old(SlotLeaves(dendro[..]))
      ensures ActiveCount(dendro[..]) + merges == old(ActiveCount(dendro[..]))
    {
      index := 0;
      var check := ClusterRound();
      merges := if check != -1 then 1 else 0;
      while check != -1
        invariant Valid()
        invariant SlotLeaves(dendro[..]) == old(SlotLeaves(dendro[..]))
        invariant ActiveCount(dendro[..]) + merges == old(ActiveCount(dendro[..]))
        invariant index < nV
        invariant check == -1 ==> dendro[index].Some? && ActiveCount(dendro[..]) < 2
        invariant check != -1 ==> 0 <= check < nV && dendro[check].Some?
        decreases ActiveCount(dendro[..]) + (if check != -1 then 1 else 0)
      {
        index := check;
        check := ClusterRound();
        if check != -1 {
          merges := merges + 1;
        }
      }
    }

    /**
     * merge(): the slot v1 receives a link node over both clusters and v2 is emptied;
     * the row and column of v2 are zeroed and the distances of v1 are updated.
     */
    method Merge(v1: nat, v2: nat)
      requires Valid() && v1 < v2 < nV && dendro[v1].Some? && dendro[v2].Some?
      modifies distance, dendro
      ensures Valid()
      ensures dendro[..] == MergedSlots(old(dendro[..]), v1, v2)
      ensures forall k :: 0 <= k < nV ==> At(v2, k) == Zero
      ensures forall k :: 0 <= k < nV && k != v1 && k != v2 ==>
                At(v1, k) == Link(linkage, old(At(v1, k)), old(At(v2, k)))
      ensures forall i, j :: 0 <= i < nV && 0 <= j < nV && i != v1 && i != v2 && j != v1 && j != v2 ==>
                distance[i, j] == old(distance[i, j])
    {
      ghost var slots := dendro[..];
      var node := NewLinkNode(dendro[v1], dendro[v2]);
      dendro[v1] := Some(node);
      dendro[v2] := None;
      assert dendro[..] == MergedSlots(slots, v1, v2);
      MergedSlotsFacts(slots, v1, v2);
      UpdateDistances(v1, v2);
      forall p, q | 0 <= p < nV && 0 <= q < nV
        ensures distance[p, q] != Zero <==> p < q && dendro[p].Some? && dendro[q].Some?
        ensures NonNeg(distance[p, q])
      {
        if q <= p {
          assert distance[p, q] == old(distance[p, q]);
        } else if p == v2 || q == v2 {
          var k := if p == v2 then q else p;
          assert distance[p, q] == At(v2, k);
        } else if p == v1 || q == v1 {
          var k := if p == v1 then q else p;
          assert distance[p, q] == At(v1, k);
          assert dendro[k] == slots[k] && dendro[v1].Some?;
          LinkLive(linkage, old(At(v1, k)), old(At(v2, k)));
        } else {
          assert distance[p, q] == old(distance[p, q]);
          assert dendro[p] == slots[p] && dendro[q] == slots[q];
        }
      }
    }

    /** The loop of merge() over every slot i: the updates of the pairs {v1, i} and {v2, i}. */
    method UpdateDistances(v1: nat, v2: nat)
      requires Sized() && v1 < v2 < nV
      modifies distance
      ensures forall k :: 0 <= k < nV && k != v2 ==> At(v2, k) == Zero
      ensures forall k :: 0 <= k < nV && k != v1 && k != v2 ==>
                At(v1, k) == Link(linkage, old(At(v1, k)), old(At(v2, k)))
      ensures forall p, q :: 0 <= p < nV && 0 <= q < nV && p != v1 && p != v2 && q != v1 && q != v2 ==>
                distance[p, q] == old(distance[p, q])
      ensures forall p, q :: 0 <= q <= p < nV ==> distance[p, q] == old(distance[p, q])
    {
      for i := 0 to nV
        invariant forall k :: 0 <= k < i && k != v2 ==> At(v2, k) == Zero
        invariant forall k :: i <= k < nV && k != v2 ==> At(v2, k) == old(At(v2, k))
        invariant forall k :: 0 <= k < i && k != v1 && k != v2 ==>
                    At(v1, k) == Link(linkage, old(At(v1, k)), old(At(v2, k)))
        invariant forall k :: i <= k < nV && k != v1 && k != v2 ==> At(v1, k) == old(At(v1, k))
        invariant forall p, q :: 0 <= p < nV && 0 <= q < nV && p != v1 && p != v2 && q != v1 && q != v2 ==>
                    distance[p, q] == old(distance[p, q])
        invariant forall p, q :: 0 <= q <= p < nV ==> distance[p, q] == old(distance[p, q])
      {
        label before:
        UpdateSlot(v1, v2, i);
        forall k | 0 <= k < i && k != v2
          ensures At(v2, k) == Zero
        {
          var p, q := if k < v2 then k else v2, if k < v2 then v2 else k;
          assert Untouched(p, q, v1, v2, i);
          assert old@before(At(v2, k)) == Zero;
        }
      }
    }

    /** One pass of merge()'s loop: zero the pair {v2, i} and link the pair {v1, i}. */
    method UpdateSlot(v1: nat, v2: nat, i: nat)
      requires Sized() && v1 < v2 < nV && i < nV
      modifies distance
      ensures i != v2 ==> At(v2, i) == Zero
      ensures i != v1 && i != v2 ==> At(v1, i) == Link(linkage, old(At(v1, i)), old(At(v2, i)))
      ensures forall p, q :: 0 <= p < nV && 0 <= q < nV && Untouched(p, q, v1, v2, i) ==>
                distance[p, q] == old(distance[p, q])
    {
      if i == v1 {
        distance[i, v2] := Zero;
      }
      if linkage == Single {
        SingleLinkage(v1, v2, i);
      } else {
        CompleteLinkage(v1, v2, i);
      }
      if i < v1 {
        distance[i, v2] := Zero;
      } else if i > v1 && i < v2 {
        distance[i, v2] := Zero;
      } else if i > v2 {
        distance[v2, i] := Zero;
      }
    }

    /** singleLinkage(): the distance of v1 to count becomes the min of the two merged clusters' distances. */
    method SingleLinkage(v1: nat, v2: nat, count: nat)
      requires Sized() && v1 < v2 < nV && count < nV
      modifies distance
      ensures count != v1 && count != v2 ==> At(v1, count) == Min(old(At(v1, count)), old(At(v2, count)))
      ensures forall p, q :: 0 <= p < nV && 0 <= q < nV && !(count != v1 && count != v2 && Cell(p, q, v1, count)) ==>
                distance[p, q] == old(distance[p, q])
    {
      if count < v1 {
        distance[count, v1] := Min(distance[count, v1], distance[count, v2]);
      } else if count > v1 && count < v2 {
        distance[v1, count] := Min(distance[v1, count], distance[count, v2]);
      } else if count > v2 {
        distance[v1, count] := Min(distance[v1, count], distance[v2, count]);
      }
    }

    /** completeLinkage(): the distance of v1 to count becomes the max of the two merged clusters' distances. */
    method CompleteLinkage(v1: nat, v2: nat, count: nat)
      requires Sized() && v1 < v2 < nV && count < nV
      modifies distance
      ensures count != v1 && count != v2 ==> At(v1, count) == Max(old(At(v1, count)), old(At(v2, count)))
      ensures forall p, q :: 0 <= p < nV && 0 <= q < nV && !(count != v1 && count != v2 && Cell(p, q, v1, count)) ==>
                distance[p, q] == old(distance[p, q])
    {
      if count < v1 {
        distance[count, v1] := Max(distance[count, v1], distance[count, v2]);
      } else if count > v1 && count < v2 {
        distance[v1, count] := Max(distance[v1, count], distance[count, v2]);
      } else if count > v2 {
        distance[v1, count] := Max(distance[v1, count], distance[v2, count]);
      }
    }
  }

  /** The cell (p, q) is not written by merge()'s pass over slot i. */
  predicate Untouched(p: int, q: int, v1: int, v2: int, i: int) {
    !(i != v1 && i != v2 && Cell(p, q, v1, i)) && !(i != v2 && Cell(p, q, v2, i))
  }

  /** (p, q) is the upper-triangle cell storing the pair {i, j}. */
  predicate Cell(p: int, q: int, i: int, j: int) {
    p < q && ((p == i && q == j) || (p == j && q == i))
  }

  /**
   * When the clustering stops, the one remaining slot holds a binary tree whose
   * leaves are the n vertices, so it has n - 1 link nodes.
   */
  lemma FinalTree(slots: seq<Option<Dendrogram>>, k: nat, n: nat)
    requires k < |slots| && slots[k].Some? && ActiveCount(slots) < 2
    requires AllWellShaped(slots) && SlotLeaves(slots) == Vertices(n)
    ensures ActiveCount(slots) == 1
    ensures WellShaped(slots[k].value)
    ensures Leaves(slots[k].value) == Vertices(n)
    ensures InternalCount(slots[k].value) == n - 1
  {
    SoleActive(slots, k);
    TwoActive(slots);
    VerticesCount(n);
    LeavesCount(slots[k].value);
  }

  // ---------------------------------------------------------------------------
  // The driver

  /** The set-up of LanceWilliamsHAC, as the driver loop sees it: one leaf per vertex in every slot. */
  method NewShape(g: Graph, linkage: Linkage) returns (s: Shape)
    requires ValidGraph(g)
    ensures fresh(s) && fresh(s.distance) && fresh(s.dendro)
    ensures s.Valid() && s.nV == |g|
    ensures SlotLeaves(s.dendro[..]) == Vertices(|g|) && ActiveCount(s.dendro[..]) == |g|
    ensures forall i :: 0 <= i < |g| ==> s.dendro[i].Some?
  {
    s := new Shape(g, linkage);
    InitialSlotsFacts(|g|);
  }

  /**
   * LanceWilliamsHAC(): clusters until cluster() reports MERGED and returns the
   * dendrogram of the slot of the last merge (slot 0 when there is one vertex).
   * The result is a binary tree whose leaves are the vertices, each exactly once,
   * built by exactly n - 1 merges.
   */
  method LanceWilliamsHAC(g: Graph, linkage: Linkage) returns (final: Dendrogram, ghost merges: nat)
    requires ValidGraph(g) && |g| >= 1
    ensures WellShaped(final)
    ensures Leaves(final) == Vertices(|g|)
    ensures InternalCount(final) == |g| - 1
    ensures merges == |g| - 1
  {
    var n := |g|;
    var s := NewShape(g, linkage);
    var index;
    index, merges := s.ClusterAll();
    final := s.dendro[index].value;
    FinalTree(s.dendro[..], index, n);
  }

  // ---------------------------------------------------------------------------
  // A worked example: three vertices joined both ways by edges of weight 1

  const Triangle: Graph := [[Edge(1, 1), Edge(2, 1)], [Edge(0, 1), Edge(2, 1)], [Edge(0, 1), Edge(1, 1)]]

  /** Every initial distance of the triangle is 1. */
  lemma TriangleDistances()
    ensures ValidGraph(Triangle)
    ensures forall i, j :: 0 <= i < j < 3 ==> InitialEntry(Triangle, i, j) == Fin(1.0)
  {
  }

  /** With all distances tied, the scan picks the last pair, (1, 2), not (0, 1). */
  lemma TriangleFirstMerge(s: Shape, a: int, b: int)
    requires s.Sized() && s.nV == 3
    requires forall i, j :: 0 <= i < j < 3 ==> s.distance[i, j] == Fin(1.0)
    requires s.IsClosest(a, b)
    ensures a == 1 && b == 2
  {
    assert s.distance[1, 2] != Zero && Le(s.distance[1, 2], s.distance[a, b]);
  }
}
