/**
 * Single-source Dijkstra that keeps, for every vertex, the list of ALL
 * predecessors on some shortest path (ties are recorded, not collapsed).
 *
 * The C arrays `sps.dist` and `sps.pred` become the arrays `dist` and `pred`
 * updated in place; a predecessor linked list becomes a `seq<nat>` whose head is
 * the most recently inserted vertex.  The priority queue (not part of this
 * model) becomes the set of vertices not yet extracted, from which some vertex
 * of minimum tentative distance is chosen: nothing proved here depends on how
 * the queue breaks ties between equal keys.
 */
module Dijkstra {
  import opened Graph

  /** A tentative or final distance; `Infinity` is the C `INFINITY` sentinel. */
  datatype Distance = Finite(n: int) | Infinity

  predicate Lt(a: Distance, b: Distance) {
    match a
    case Infinity => false
    case Finite(x) => b.Infinity? || x < b.n
  }

  predicate Le(a: Distance, b: Distance) {
    a == b || Lt(a, b)
  }

  /** The result of one query: distances and predecessor lists from `src`. */
  datatype ShortestPaths = ShortestPaths(numNodes: nat, src: nat, dist: seq<Distance>, pred: seq<seq<nat>>)

  /** Links the new predecessor node `x` in front of the list `head`. */
  function InsertPred(head: seq<nat>, x: nat): (r: seq<nat>)
    ensures |r| == |head| + 1 && r[0] == x && r[1..] == head
    ensures forall y :: y in r <==> y == x || y in head
  {
    [x] + head
  }

  /** Allocates the result arrays: `src` at distance 0, every other vertex unreachable, no predecessors. */
  method SetupSPS(numNodes: nat, src: nat) returns (dist: array<Distance>, pred: array<seq<nat>>)
    requires src < numNodes
    ensures fresh(dist) && fresh(pred)
    ensures dist.Length == numNodes && pred.Length == numNodes
    ensures forall v :: 0 <= v < numNodes ==>
              dist[v] == (if v == src then Finite(0) else Infinity) && pred[v] == []
  {
    dist := new Distance[numNodes];
    pred := new seq<nat>[numNodes];
    for i := 0 to numNodes
      invariant forall v :: 0 <= v < i ==> dist[v] == Infinity && pred[v] == []
    {
      dist[i] := Infinity;
      pred[i] := [];
    }
    dist[src] := Finite(0);
  }

  /**
   * Relaxation of the edge u -> e.v against the state (d, p): a strict
   * improvement replaces v's predecessors by [u], a tie links u in front of
   * them, and nothing happens when u itself is unreachable.
   */
  function Relax(d: seq<Distance>, p: seq<seq<nat>>, u: nat, e: Edge): (r: (seq<Distance>, seq<seq<nat>>))
    requires |d| == |p| && u < |d| && e.v < |d|
    ensures |r.0| == |d| && |r.1| == |p|
    ensures forall x :: 0 <= x < |d| && x != e.v ==> r.0[x] == d[x] && r.1[x] == p[x]
    ensures d[u] == Infinity ==> r == (d, p)
    ensures d[u].Finite? ==>
              var alt := Finite(d[u].n + e.weight);
              && Le(r.0[e.v], d[e.v]) && Le(r.0[e.v], alt)
              && (r.0[e.v] == d[e.v] || r.0[e.v] == alt)
              && (Lt(alt, d[e.v]) ==> r.1[e.v] == [u])
              && (alt == d[e.v] ==> r.1[e.v] == [u] + p[e.v])
              && (forall x :: x in r.1[e.v] <==>
                    (x == u && r.0[e.v] == alt) || (x in p[e.v] && r.0[e.v] == d[e.v]))
  {
    if d[u] != Infinity then
      var alt := Finite(d[u].n + e.weight);
      if Lt(alt, d[e.v]) then
        (d[e.v := alt], p[e.v := InsertPred([], u)])
      else if alt == d[e.v] then
        (d, p[e.v := InsertPred(p[e.v], u)])
      else
        (d, p)
    else
      (d, p)
  }

  // ---------------------------------------------------------------------------
  // Loop invariants of the main loop.  `done` holds the extracted vertices whose
  // edges have all been relaxed; `cur` is the vertex being processed, of which
  // the first `pos` edges have been relaxed (pos == 0: none).

  ghost predicate Processed(done: set<nat>, cur: nat, pos: nat, x: nat, k: nat) {
    x in done || (x == cur && k < pos)
  }

  /** Shape of the state and the facts every step keeps about distances. */
  ghost predicate ValidState(g: Graph, src: nat, d: seq<Distance>, p: seq<seq<nat>>) {
    && |d| == |g| && |p| == |g| && src < |g|
    && d[src] == Finite(0)
    && (forall v :: 0 <= v < |d| && d[v].Finite? ==> d[v].n >= 0)
  }

  /** Every processed edge x -> t of weight w satisfies d[t] <= d[x] + w. */
  ghost predicate Relaxed(g: Graph, d: seq<Distance>, done: set<nat>, cur: nat, pos: nat)
    requires |d| == |g| && ValidGraph(g)
  {
    forall x, k :: 0 <= x < |g| && 0 <= k < |g[x]| && Processed(done, cur, pos, x, k) && d[x].Finite? ==>
      Le(d[g[x][k].v], Finite(d[x].n + g[x][k].weight))
  }

  /** Every recorded predecessor x of v is settled and reaches v along an edge that achieves d[v]. */
  ghost predicate PredSound(g: Graph, d: seq<Distance>, p: seq<seq<nat>>, settled: set<nat>)
    requires |d| == |g| && |p| == |g|
  {
    forall v, x {:trigger x in p[v]} :: 0 <= v < |p| && x in p[v] ==>
      x in settled && x < |g| && d[x].Finite? && d[v].Finite? && Edge(v, d[v].n - d[x].n) in g[x]
  }

  /** Every processed edge x -> t that achieves d[t] has x recorded as a predecessor of t. */
  ghost predicate PredComplete(g: Graph, d: seq<Distance>, p: seq<seq<nat>>, done: set<nat>, cur: nat, pos: nat)
    requires |d| == |g| && |p| == |g| && ValidGraph(g)
  {
    forall x, k ::
      (0 <= x < |g| && 0 <= k < |g[x]| && Processed(done, cur, pos, x, k) && d[x].Finite? &&
       d[g[x][k].v] == Finite(d[x].n + g[x][k].weight)) ==> x in p[g[x][k].v]
  }

  /** A reached vertex other than the source has a predecessor. */
  ghost predicate PredNonEmpty(src: nat, d: seq<Distance>, p: seq<seq<nat>>)
    requires |d| == |p|
  {
    forall v :: 0 <= v < |d| && v != src && d[v].Finite? ==> p[v] != []
  }

  /** State between two extractions: `q` is the queue, `done` the extracted vertices. */
  ghost predicate OuterInv(g: Graph, src: nat, d: seq<Distance>, p: seq<seq<nat>>, q: set<nat>, done: set<nat>) {
    && ValidGraph(g) && ValidState(g, src, d, p)
    && (forall x :: 0 <= x < |g| ==> (x in q <==> x !in done))
    && (forall x :: x in q ==> x < |g|) && (forall x :: x in done ==> x < |g|)
    && (forall x, y :: x in done && y in q ==> Le(d[x], d[y]))
    && Relaxed(g, d, done, 0, 0)
    && PredSound(g, d, p, done)
    && PredComplete(g, d, p, done, 0, 0)
    && PredNonEmpty(src, d, p)
  }

  /** State while the edges of the extracted vertex `u` are relaxed, `pos` of them so far. */
  ghost predicate InnerInv(g: Graph, src: nat, d: seq<Distance>, p: seq<seq<nat>>, q: set<nat>, done: set<nat>,
                           u: nat, pos: nat) {
    && ValidGraph(g) && ValidState(g, src, d, p)
    && u < |g| && pos <= |g[u]| && u !in q && u !in done
    && (forall x :: 0 <= x < |g| ==> (x in q <==> x !in done && x != u))
    && (forall x :: x in q ==> x < |g|) && (forall x :: x in done ==> x < |g|)
    && (forall x, y :: (x in done || x == u) && y in q ==> Le(d[x], d[y]))
    && (forall x :: x in done ==> Le(d[x], d[u]))
    && Relaxed(g, d, done, u, pos)
    && PredSound(g, d, p, done + {u})
    && PredComplete(g, d, p, done, u, pos)
    && PredNonEmpty(src, d, p)
  }

  /** The final state: every edge relaxed, predecessor lists sound and complete. */
  ghost predicate SettledTree(g: Graph, src: nat, d: seq<Distance>, p: seq<seq<nat>>) {
    && ValidGraph(g) && ValidState(g, src, d, p)
    && (forall x, k :: 0 <= x < |g| && 0 <= k < |g[x]| && d[x].Finite? ==>
          Le(d[g[x][k].v], Finite(d[x].n + g[x][k].weight)))
    && (forall v, x {:trigger x in p[v]} :: 0 <= v < |p| && x in p[v] ==>
          x < |g| && d[x].Finite? && d[v].Finite? && Edge(v, d[v].n - d[x].n) in g[x])
    && (forall x, k ::
          (0 <= x < |g| && 0 <= k < |g[x]| && d[x].Finite? &&
           d[g[x][k].v] == Finite(d[x].n + g[x][k].weight)) ==> x in p[g[x][k].v])
    && PredNonEmpty(src, d, p)
  }

  /** `dt` is the length of a shortest walk from s to t, or Infinity when t is unreachable. */
  ghost predicate IsShortestDistance(g: Graph, s: nat, t: nat, dt: Distance) {
    && (dt.Infinity? <==> !Reachable(g, s, t))
    && (dt.Finite? ==>
          && (exists w :: IsWalk(g, s, t, w) && WalkWeight(w) == dt.n)
          && (forall w :: IsWalk(g, s, t, w) ==> dt.n <= WalkWeight(w)))
  }

  // ---------------------------------------------------------------------------
  // How many times a predecessor is recorded.

  /** The number of edges x -> v in `edges` that achieve dv from dx (parallel edges count separately). */
  function TightIn(edges: seq<Edge>, dx: Distance, dv: Distance, v: nat): nat {
    if dx.Finite? && dv.Finite? then multiset(edges)[Edge(v, dv.n - dx.n)] else 0
  }

  /** The number of edges x -> v of the graph that achieve d[v]. */
  function TightCount(g: Graph, d: seq<Distance>, x: nat, v: nat): nat
    requires |d| == |g| && x < |g| && v < |g|
  {
    TightIn(g[x], d[x], d[v], v)
  }

  /** Each predecessor list holds x exactly once per edge x -> v that achieves d[v]. */
  ghost predicate PredCounted(g: Graph, d: seq<Distance>, p: seq<seq<nat>>)
    requires |d| == |g| && |p| == |g|
  {
    forall v, x {:trigger multiset(p[v])[x]} :: 0 <= v < |g| && 0 <= x < |g| ==>
      multiset(p[v])[x] == TightCount(g, d, x, v)
  }

  /** The edges of x relaxed so far: all of them once x is done, the first `pos` while x is processed. */
  ghost function RelaxedEdges(g: Graph, done: set<nat>, cur: nat, pos: nat, x: nat): seq<Edge>
    requires x < |g|
  {
    if x in done then g[x] else if x == cur && pos <= |g[x]| then g[x][..pos] else []
  }

  /** Loop form of PredCounted: only the edges relaxed so far have been recorded. */
  ghost predicate PredCountedSoFar(g: Graph, d: seq<Distance>, p: seq<seq<nat>>, done: set<nat>, cur: nat, pos: nat)
    requires |d| == |g| && |p| == |g|
  {
    forall v, x {:trigger multiset(p[v])[x]} :: 0 <= v < |g| && 0 <= x < |g| ==>
      multiset(p[v])[x] == TightIn(RelaxedEdges(g, done, cur, pos, x), d[x], d[v], v)
  }

  // ---------------------------------------------------------------------------
  // The algorithm.

  method Dijkstra(g: Graph, src: nat) returns (sps: ShortestPaths, ghost order: seq<nat>)
    requires ValidGraph(g) && src < |g|
    ensures sps.numNodes == |g| && sps.src == src
    ensures SettledTree(g, src, sps.dist, sps.pred)
    ensures forall t :: 0 <= t < |g| ==> IsShortestDistance(g, src, t, sps.dist[t])
    ensures forall v :: 0 <= v < |g| ==> (sps.pred[v] == [] <==> v == src || sps.dist[v] == Infinity)
    ensures PredCounted(g, sps.dist, sps.pred)
    // every vertex is extracted exactly once, in non-decreasing order of distance
    ensures |order| == |g| && forall i :: 0 <= i < |order| ==> order[i] < |g|
    ensures forall i, j :: 0 <= i < j < |order| ==>
              order[i] != order[j] && Le(sps.dist[order[i]], sps.dist[order[j]])
  {
    var n := |g|;
    var dist, pred := SetupSPS(n, src);
    var q: set<nat> := {};
    for i := 0 to n
      invariant forall x: nat :: x in q <==> x < i
      invariant |q| == i
    {
      q := q + {i};
    }
    InitialState(g, src, dist[..], pred[..], q);
    ghost var done;
    CountInitial(g, src, dist[..], pred[..]);
    order, done := ExtractAll(g, src, dist, pred, q);
    sps := ShortestPaths(n, src, dist[..], pred[..]);
    FinalState(g, src, dist[..], pred[..], done);
    CountFinal(g, src, dist[..], pred[..], done);
  }

  /** The main loop: extracts a vertex of minimum distance and relaxes its edges until the queue is empty. */
  method ExtractAll(g: Graph, src: nat, dist: array<Distance>, pred: array<seq<nat>>, q0: set<nat>)
    returns (ghost order: seq<nat>, ghost done: set<nat>)
    requires dist != pred as object && dist.Length == |g| && pred.Length == |g|
    requires OuterInv(g, src, dist[..], pred[..], q0, {}) && |q0| == |g|
    requires PredCountedSoFar(g, dist[..], pred[..], {}, 0, 0)
    modifies dist, pred
    ensures OuterInv(g, src, dist[..], pred[..], {}, done)
    ensures PredCountedSoFar(g, dist[..], pred[..], done, 0, 0)
    ensures |order| == |g| && ExtractionOrder(order, dist[..], done)
  {
    var q := q0;
    done := {};
    order := [];
    while q != {}
      invariant OuterInv(g, src, dist[..], pred[..], q, done)
      invariant PredCountedSoFar(g, dist[..], pred[..], done, 0, 0)
      invariant |order| + |q| == |g|
      invariant ExtractionOrder(order, dist[..], done)
      decreases |q|
    {
      ghost var m := MinOf(q, dist[..]);
      assert m in q && forall y :: y in q ==> Le(dist[m], dist[y]);
      var u: nat :| u in q && forall y :: y in q ==> Le(dist[u], dist[y]);
      ProcessVertex(g, src, dist, pred, q, done, order, u);
      q := q - {u};
      done := done + {u};
      order := order + [u];
    }
  }

  /** Processes the extracted vertex `u`: all its edges are relaxed and it joins the extracted vertices. */
  method ProcessVertex(g: Graph, src: nat, dist: array<Distance>, pred: array<seq<nat>>,
                       ghost q: set<nat>, ghost done: set<nat>, ghost order: seq<nat>, u: nat)
    requires dist != pred as object
    requires OuterInv(g, src, dist[..], pred[..], q, done)
    requires u in q && forall y :: y in q ==> Le(dist[u], dist[y])
    requires PredCountedSoFar(g, dist[..], pred[..], done, 0, 0)
    requires ExtractionOrder(order, dist[..], done)
    modifies dist, pred
    ensures OuterInv(g, src, dist[..], pred[..], q - {u}, done + {u})
    ensures PredCountedSoFar(g, dist[..], pred[..], done + {u}, 0, 0)
    ensures ExtractionOrder(order + [u], dist[..], done + {u})
    ensures forall x :: x in done || x == u ==> dist[x] == old(dist[x])
  {
    ghost var d0 := dist[..];
    assert forall x :: x in done ==> Le(d0[x], d0[u]);
    ExtractPreserves(g, src, dist[..], pred[..], q, done, u);
    CountExtract(g, src, dist[..], pred[..], q, done, u);
    RelaxOutEdges(g, src, dist, pred, q - {u}, done, u);
    FinishPreserves(g, src, dist[..], pred[..], q - {u}, done, u);
    CountFinish(g, src, dist[..], pred[..], q - {u}, done, u);
    OrderExtend(order, d0, dist[..], done, u);
  }

  /** Relaxes every edge leaving the extracted vertex `u`, in adjacency-list order. */
  method RelaxOutEdges(g: Graph, src: nat, dist: array<Distance>, pred: array<seq<nat>>,
                       ghost q: set<nat>, ghost done: set<nat>, u: nat)
    requires dist != pred as object && u < |g|
    requires InnerInv(g, src, dist[..], pred[..], q, done, u, 0)
    requires PredCountedSoFar(g, dist[..], pred[..], done, u, 0)
    modifies dist, pred
    ensures InnerInv(g, src, dist[..], pred[..], q, done, u, |g[u]|)
    ensures PredCountedSoFar(g, dist[..], pred[..], done, u, |g[u]|)
    ensures forall x :: x in done || x == u ==> dist[x] == old(dist[x])
  {
    ghost var d0 := dist[..];
    var k := 0;
    while k < |g[u]|
      invariant InnerInv(g, src, dist[..], pred[..], q, done, u, k)
      invariant PredCountedSoFar(g, dist[..], pred[..], done, u, k)
      invariant forall x :: x in done || x == u ==> dist[x] == d0[x]
    {
      ghost var d, p := dist[..], pred[..];
      RelaxEdge(dist, pred, u, g[u][k]);
      RelaxPreserves(g, src, d, p, q, done, u, k);
      CountPreserves(g, src, d, p, q, done, u, k);
      k := k + 1;
    }
  }

  /** The body of the inner loop: relaxation of the edge u -> e.v, in place. */
  method RelaxEdge(dist: array<Distance>, pred: array<seq<nat>>, u: nat, e: Edge)
    requires dist.Length == pred.Length && u < dist.Length && e.v < dist.Length
    modifies dist, pred
    ensures (dist[..], pred[..]) == Relax(old(dist[..]), old(pred[..]), u, e)
  {
    if dist[u] != Infinity {
      var alt := Finite(dist[u].n + e.weight);
      if Lt(alt, dist[e.v]) {
        dist[e.v] := alt;
        pred[e.v] := InsertPred([], u);
      } else if alt == dist[e.v] {
        pred[e.v] := InsertPred(pred[e.v], u);
      }
    }
  }

  /** `order` lists the extracted vertices, each once, in non-decreasing order of distance. */
  ghost predicate ExtractionOrder(order: seq<nat>, d: seq<Distance>, done: set<nat>) {
    && (forall i :: 0 <= i < |order| ==> order[i] < |d|)
    && (forall x :: x in order <==> x in done)
    && (forall i, j :: 0 <= i < j < |order| ==> order[i] != order[j] && Le(d[order[i]], d[order[j]]))
  }

  // ---------------------------------------------------------------------------
  // Lemmas about the loop invariants.

  lemma LeTrans(a: Distance, b: Distance, c: Distance)
    requires Le(a, b) && Le(b, c)
    ensures Le(a, c)
  {
  }

  lemma InitialState(g: Graph, src: nat, d: seq<Distance>, p: seq<seq<nat>>, q: set<nat>)
    requires ValidGraph(g) && src < |g| && |d| == |g| && |p| == |g|
    requires forall v :: 0 <= v < |g| ==> d[v] == (if v == src then Finite(0) else Infinity) && p[v] == []
    requires forall x: nat :: x in q <==> x < |g|
    ensures OuterInv(g, src, d, p, q, {})
  {
  }

  /** Extracting a minimum vertex u starts the relaxation of its edges. */
  lemma ExtractPreserves(g: Graph, src: nat, d: seq<Distance>, p: seq<seq<nat>>, q: set<nat>, done: set<nat>,
                         u: nat)
    requires OuterInv(g, src, d, p, q, done)
    requires u in q && forall y :: y in q ==> Le(d[u], d[y])
    ensures InnerInv(g, src, d, p, q - {u}, done, u, 0)
  {
    forall x, k | 0 <= x < |g| && 0 <= k < |g[x]| && Processed(done, u, 0, x, k)
      ensures Processed(done, 0, 0, x, k)
    {
    }
  }

  /** Once all edges of u are relaxed, u joins the extracted vertices. */
  lemma FinishPreserves(g: Graph, src: nat, d: seq<Distance>, p: seq<seq<nat>>, q: set<nat>, done: set<nat>,
                        u: nat)
    requires u < |g| && InnerInv(g, src, d, p, q, done, u, |g[u]|)
    ensures OuterInv(g, src, d, p, q, done + {u})
  {
    forall x, k | 0 <= x < |g| && 0 <= k < |g[x]| && Processed(done + {u}, 0, 0, x, k)
      ensures Processed(done, u, |g[u]|, x, k)
    {
    }
  }

  lemma OrderExtend(order: seq<nat>, d0: seq<Distance>, d: seq<Distance>, done: set<nat>, u: nat)
    requires ExtractionOrder(order, d0, done) && |d| == |d0| && u < |d| && u !in done
    requires forall x :: x in done ==> Le(d0[x], d0[u])
    requires forall x :: x in done || x == u ==> d[x] == d0[x]
    ensures ExtractionOrder(order + [u], d, done + {u})
  {
    var o := order + [u];
    forall i, j | 0 <= i < j < |o|
      ensures o[i] != o[j] && Le(d[o[i]], d[o[j]])
    {
      assert o[i] in order;
    }
  }

  /** Some vertex of the queue has minimum tentative distance: the one the queue extracts. */
  ghost function MinOf(q: set<nat>, d: seq<Distance>): (u: nat)
    requires q != {} && forall x :: x in q ==> x < |d|
    ensures u in q && forall y :: y in q ==> Le(d[u], d[y])
  {
    var x :| x in q;
    if q == {x} then
      x
    else
      var m := MinOf(q - {x}, d);
      if Le(d[m], d[x]) then m
      else
        assert forall y :: y in q - {x} ==> Le(d[x], d[y]) by {
          forall y | y in q - {x} ensures Le(d[x], d[y]) {
            LeTrans(d[x], d[m], d[y]);
          }
        }
        x
  }

  /** One relaxation step keeps the inner invariant and moves past one more edge of u. */
  lemma RelaxPreserves(g: Graph, src: nat, d: seq<Distance>, p: seq<seq<nat>>, q: set<nat>, done: set<nat>,
                       u: nat, pos: nat)
    requires InnerInv(g, src, d, p, q, done, u, pos) && pos < |g[u]|
    ensures var r := Relax(d, p, u, g[u][pos]);
            && InnerInv(g, src, r.0, r.1, q, done, u, pos + 1)
            && forall x :: x in done || x == u ==> r.0[x] == d[x]
  {
    var e := g[u][pos];
    var r := Relax(d, p, u, e);
    var (d', p') := r;
    if d[u].Finite? {
      var alt := Finite(d[u].n + e.weight);
      assert e.weight > 0 && e.v < |g|;
      if e.v in done || e.v == u {
        assert Le(d[e.v], d[u]);
        assert d' == d && p' == p;
        RelaxSkip(g, src, d, p, q, done, u, pos);
      } else {
        assert e.v in q;
        if Lt(alt, d[e.v]) {
          assert e.v != src;
          RelaxStrict(g, src, d, p, q, done, u, pos);
        } else if alt == d[e.v] {
          RelaxTie(g, src, d, p, q, done, u, pos);
        } else {
          assert d' == d && p' == p;
          RelaxSkip(g, src, d, p, q, done, u, pos);
        }
      }
    } else {
      RelaxSkip(g, src, d, p, q, done, u, pos);
    }
  }

  /** An edge that does not improve its far end leaves the state unchanged and counts as processed. */
  lemma RelaxSkip(g: Graph, src: nat, d: seq<Distance>, p: seq<seq<nat>>, q: set<nat>, done: set<nat>,
                  u: nat, pos: nat)
    requires InnerInv(g, src, d, p, q, done, u, pos) && pos < |g[u]|
    requires d[u].Finite? ==> Lt(d[g[u][pos].v], Finite(d[u].n + g[u][pos].weight))
    ensures InnerInv(g, src, d, p, q, done, u, pos + 1)
  {
    forall x, k | 0 <= x < |g| && 0 <= k < |g[x]| && Processed(done, u, pos + 1, x, k) && d[x].Finite?
      ensures Le(d[g[x][k].v], Finite(d[x].n + g[x][k].weight))
    {
      if !(x == u && k == pos) {
        assert Processed(done, u, pos, x, k);
      }
    }
    forall x, k | 0 <= x < |g| && 0 <= k < |g[x]| && Processed(done, u, pos + 1, x, k) && d[x].Finite? &&
                  d[g[x][k].v] == Finite(d[x].n + g[x][k].weight)
      ensures x in p[g[x][k].v]
    {
      assert !(x == u && k == pos);
      assert Processed(done, u, pos, x, k);
    }
  }

  lemma RelaxStrict(g: Graph, src: nat, d: seq<Distance>, p: seq<seq<nat>>, q: set<nat>, done: set<nat>,
                    u: nat, pos: nat)
    requires InnerInv(g, src, d, p, q, done, u, pos) && pos < |g[u]|
    requires d[u].Finite? && g[u][pos].v in q
    requires Lt(Finite(d[u].n + g[u][pos].weight), d[g[u][pos].v])
    ensures var r := Relax(d, p, u, g[u][pos]);
            InnerInv(g, src, r.0, r.1, q, done, u, pos + 1)
  {
    var e := g[u][pos];
    var v := e.v;
    var alt := Finite(d[u].n + e.weight);
    var d' := d[v := alt];
    var p' := p[v := [u]];
    assert Relax(d, p, u, e) == (d', p');
    assert v != u && v !in done && v != src;
    StrictRelaxed(g, src, d, p, q, done, u, pos);
    StrictComplete(g, src, d, p, q, done, u, pos);
    StrictSound(g, d, p, done + {u}, u, e);
  }

  lemma StrictSound(g: Graph, d: seq<Distance>, p: seq<seq<nat>>, settled: set<nat>, u: nat, e: Edge)
    requires |d| == |g| && |p| == |g| && PredSound(g, d, p, settled)
    requires u in settled && u < |g| && d[u].Finite? && e in g[u] && e.v < |g| && e.v !in settled
    ensures PredSound(g, d[e.v := Finite(d[u].n + e.weight)], p[e.v := [u]], settled)
  {
    var v := e.v;
    var d' := d[v := Finite(d[u].n + e.weight)];
    var p' := p[v := [u]];
    forall w, x | 0 <= w < |p'| && x in p'[w]
      ensures x in settled && x < |g| && d'[x].Finite? && d'[w].Finite? && Edge(w, d'[w].n - d'[x].n) in g[x]
    {
      if w == v {
        assert x == u && Edge(w, d'[w].n - d'[x].n) == e;
      } else {
        assert x in p[w];
        assert x != v;
      }
    }
    assert PredSound(g, d', p', settled);
  }

  lemma StrictRelaxed(g: Graph, src: nat, d: seq<Distance>, p: seq<seq<nat>>, q: set<nat>, done: set<nat>,
                      u: nat, pos: nat)
    requires InnerInv(g, src, d, p, q, done, u, pos) && pos < |g[u]|
    requires d[u].Finite? && g[u][pos].v in q
    requires Lt(Finite(d[u].n + g[u][pos].weight), d[g[u][pos].v])
    ensures Relaxed(g, d[g[u][pos].v := Finite(d[u].n + g[u][pos].weight)], done, u, pos + 1)
  {
    var v := g[u][pos].v;
    var alt := Finite(d[u].n + g[u][pos].weight);
    var d' := d[v := alt];
    forall x, k | 0 <= x < |g| && 0 <= k < |g[x]| && Processed(done, u, pos + 1, x, k) && d'[x].Finite?
      ensures Le(d'[g[x][k].v], Finite(d'[x].n + g[x][k].weight))
    {
      assert x != v;
      if !(x == u && k == pos) {
        assert Processed(done, u, pos, x, k);
        if g[x][k].v == v {
          LeTrans(alt, d[v], Finite(d[x].n + g[x][k].weight));
        }
      }
    }
  }

  lemma StrictComplete(g: Graph, src: nat, d: seq<Distance>, p: seq<seq<nat>>, q: set<nat>, done: set<nat>,
                       u: nat, pos: nat)
    requires InnerInv(g, src, d, p, q, done, u, pos) && pos < |g[u]|
    requires d[u].Finite? && g[u][pos].v in q
    requires Lt(Finite(d[u].n + g[u][pos].weight), d[g[u][pos].v])
    ensures PredComplete(g, d[g[u][pos].v := Finite(d[u].n + g[u][pos].weight)], p[g[u][pos].v := [u]],
                         done, u, pos + 1)
  {
    var v := g[u][pos].v;
    var alt := Finite(d[u].n + g[u][pos].weight);
    var d' := d[v := alt];
    var p' := p[v := [u]];
    forall x, k | 0 <= x < |g| && 0 <= k < |g[x]| && Processed(done, u, pos + 1, x, k) && d'[x].Finite? &&
                  d'[g[x][k].v] == Finite(d'[x].n + g[x][k].weight)
      ensures x in p'[g[x][k].v]
    {
      assert x != v;
      if !(x == u && k == pos) {
        assert Processed(done, u, pos, x, k);
        assert Le(d[g[x][k].v], Finite(d[x].n + g[x][k].weight));
        assert g[x][k].v != v;
      }
    }
  }

  lemma RelaxTie(g: Graph, src: nat, d: seq<Distance>, p: seq<seq<nat>>, q: set<nat>, done: set<nat>,
                 u: nat, pos: nat)
    requires InnerInv(g, src, d, p, q, done, u, pos) && pos < |g[u]|
    requires d[u].Finite? && g[u][pos].v in q
    requires Finite(d[u].n + g[u][pos].weight) == d[g[u][pos].v]
    ensures var r := Relax(d, p, u, g[u][pos]);
            InnerInv(g, src, r.0, r.1, q, done, u, pos + 1)
  {
    var e := g[u][pos];
    var v := e.v;
    var p' := p[v := [u] + p[v]];
    assert Relax(d, p, u, e) == (d, p');
    forall x, k | 0 <= x < |g| && 0 <= k < |g[x]| && Processed(done, u, pos + 1, x, k) && d[x].Finite?
      ensures Le(d[g[x][k].v], Finite(d[x].n + g[x][k].weight))
    {
      if !(x == u && k == pos) {
        assert Processed(done, u, pos, x, k);
      }
    }
    TieComplete(g, d, p, done, u, pos);
    assert e in g[u];
    TieSound(g, d, p, done + {u}, u, e);
  }

  /** Recording `u` as a predecessor of the far end of its tied edge `pos` completes the edges processed so far. */
  lemma TieComplete(g: Graph, d: seq<Distance>, p: seq<seq<nat>>, done: set<nat>, u: nat, pos: nat)
    requires ValidGraph(g) && |d| == |g| && |p| == |g| && u < |g| && pos < |g[u]|
    requires PredComplete(g, d, p, done, u, pos)
    ensures PredComplete(g, d, p[g[u][pos].v := [u] + p[g[u][pos].v]], done, u, pos + 1)
  {
    var p' := p[g[u][pos].v := [u] + p[g[u][pos].v]];
    forall x, k | 0 <= x < |g| && 0 <= k < |g[x]| && Processed(done, u, pos + 1, x, k) && d[x].Finite? &&
                  d[g[x][k].v] == Finite(d[x].n + g[x][k].weight)
      ensures x in p'[g[x][k].v]
    {
      if !(x == u && k == pos) {
        assert Processed(done, u, pos, x, k);
      }
    }
  }

  /** Recording `u` as a predecessor of `e.v` along a tied edge keeps the predecessor lists sound. */
  lemma TieSound(g: Graph, d: seq<Distance>, p: seq<seq<nat>>, settled: set<nat>, u: nat, e: Edge)
    requires |d| == |g| && |p| == |g| && u < |g| && e in g[u] && e.v < |g| && u in settled
    requires d[u].Finite? && d[e.v] == Finite(d[u].n + e.weight)
    requires PredSound(g, d, p, settled)
    ensures PredSound(g, d, p[e.v := [u] + p[e.v]], settled)
  {
    var p' := p[e.v := [u] + p[e.v]];
    forall v, x | 0 <= v < |p'| && x in p'[v]
      ensures x in settled && x < |g| && d[x].Finite? && d[v].Finite? && Edge(v, d[v].n - d[x].n) in g[x]
    {
      if v != e.v || x != u {
        assert x in p[v];
      }
    }
  }

  /** When the queue is empty every vertex is done and the outer invariant is the final state. */
  lemma SettledFromOuter(g: Graph, src: nat, d: seq<Distance>, p: seq<seq<nat>>, done: set<nat>)
    requires OuterInv(g, src, d, p, {}, done)
    ensures SettledTree(g, src, d, p)
  {
    SoundFromOuter(g, src, d, p, done);
    RelaxedFromOuter(g, src, d, p, done);
    CompleteFromOuter(g, src, d, p, done);
    assert ValidState(g, src, d, p) && PredNonEmpty(src, d, p);
  }

  lemma SoundFromOuter(g: Graph, src: nat, d: seq<Distance>, p: seq<seq<nat>>, done: set<nat>)
    requires OuterInv(g, src, d, p, {}, done)
    ensures forall v, x {:trigger x in p[v]} :: 0 <= v < |p| && x in p[v] ==>
              x < |g| && d[x].Finite? && d[v].Finite? && Edge(v, d[v].n - d[x].n) in g[x]
  {
    SoundForget(g, d, p, done);
  }

  /** Forgetting which vertices are settled keeps the predecessor lists sound. */
  lemma SoundForget(g: Graph, d: seq<Distance>, p: seq<seq<nat>>, done: set<nat>)
    requires |d| == |g| && |p| == |g| && PredSound(g, d, p, done)
    ensures forall v, x {:trigger x in p[v]} :: 0 <= v < |p| && x in p[v] ==>
              x < |g| && d[x].Finite? && d[v].Finite? && Edge(v, d[v].n - d[x].n) in g[x]
  {
  }

  lemma RelaxedFromOuter(g: Graph, src: nat, d: seq<Distance>, p: seq<seq<nat>>, done: set<nat>)
    requires OuterInv(g, src, d, p, {}, done)
    ensures forall x, k :: 0 <= x < |g| && 0 <= k < |g[x]| && d[x].Finite? ==>
              Le(d[g[x][k].v], Finite(d[x].n + g[x][k].weight))
  {
    assert Relaxed(g, d, done, 0, 0);
    forall x, k | 0 <= x < |g| && 0 <= k < |g[x]| && d[x].Finite?
      ensures Le(d[g[x][k].v], Finite(d[x].n + g[x][k].weight))
    {
      assert Processed(done, 0, 0, x, k);
    }
  }

  lemma CompleteFromOuter(g: Graph, src: nat, d: seq<Distance>, p: seq<seq<nat>>, done: set<nat>)
    requires OuterInv(g, src, d, p, {}, done)
    ensures forall x, k ::
              (0 <= x < |g| && 0 <= k < |g[x]| && d[x].Finite? &&
               d[g[x][k].v] == Finite(d[x].n + g[x][k].weight)) ==> x in p[g[x][k].v]
  {
    assert PredComplete(g, d, p, done, 0, 0);
    forall x, k | (0 <= x < |g| && 0 <= k < |g[x]| && d[x].Finite? &&
                   d[g[x][k].v] == Finite(d[x].n + g[x][k].weight))
      ensures x in p[g[x][k].v]
    {
      assert Processed(done, 0, 0, x, k);
    }
  }

  /** The postconditions of the algorithm, from its final state. */
  lemma FinalState(g: Graph, src: nat, d: seq<Distance>, p: seq<seq<nat>>, done: set<nat>)
    requires OuterInv(g, src, d, p, {}, done)
    ensures SettledTree(g, src, d, p)
    ensures forall t :: 0 <= t < |g| ==> IsShortestDistance(g, src, t, d[t])
    ensures forall v :: 0 <= v < |g| ==> (p[v] == [] <==> v == src || d[v] == Infinity)
  {
    SettledFromOuter(g, src, d, p, done);
    SettledIsShortest(g, src, d, p);
    SettledPredEmpty(g, src, d, p);
  }

  // ---------------------------------------------------------------------------
  // The predecessor counts along the run.

  lemma CountInitial(g: Graph, src: nat, d: seq<Distance>, p: seq<seq<nat>>)
    requires src < |g| && |d| == |g| && |p| == |g| && forall v :: 0 <= v < |g| ==> p[v] == []
    ensures PredCountedSoFar(g, d, p, {}, 0, 0)
  {
    forall v, x | 0 <= v < |g| && 0 <= x < |g|
      ensures multiset(p[v])[x] == TightIn(RelaxedEdges(g, {}, 0, 0, x), d[x], d[v], v)
    {
      assert RelaxedEdges(g, {}, 0, 0, x) == [];
    }
  }

  /** Moving the extracted vertex u from the queue to `cur` relaxes no edge. */
  lemma CountExtract(g: Graph, src: nat, d: seq<Distance>, p: seq<seq<nat>>, q: set<nat>, done: set<nat>, u: nat)
    requires OuterInv(g, src, d, p, q, done) && u in q
    requires PredCountedSoFar(g, d, p, done, 0, 0)
    ensures PredCountedSoFar(g, d, p, done, u, 0)
  {
    forall x | 0 <= x < |g|
      ensures RelaxedEdges(g, done, u, 0, x) == RelaxedEdges(g, done, 0, 0, x)
    {
    }
  }

  /** Once every edge of u is relaxed, u joins the extracted vertices. */
  lemma CountFinish(g: Graph, src: nat, d: seq<Distance>, p: seq<seq<nat>>, q: set<nat>, done: set<nat>, u: nat)
    requires u < |g| && InnerInv(g, src, d, p, q, done, u, |g[u]|)
    requires PredCountedSoFar(g, d, p, done, u, |g[u]|)
    ensures PredCountedSoFar(g, d, p, done + {u}, 0, 0)
  {
    forall x | 0 <= x < |g|
      ensures RelaxedEdges(g, done + {u}, 0, 0, x) == RelaxedEdges(g, done, u, |g[u]|, x)
    {
      assert g[u][..|g[u]|] == g[u];
    }
  }

  /** With the queue empty every edge is relaxed, so the counts are those of the whole graph. */
  lemma CountFinal(g: Graph, src: nat, d: seq<Distance>, p: seq<seq<nat>>, done: set<nat>)
    requires OuterInv(g, src, d, p, {}, done)
    requires PredCountedSoFar(g, d, p, done, 0, 0)
    ensures PredCounted(g, d, p)
  {
    forall x | 0 <= x < |g|
      ensures RelaxedEdges(g, done, 0, 0, x) == g[x]
    {
      assert x !in {};
    }
  }

  /** One relaxation step records u once more exactly when the edge ties or improves. */
  lemma CountPreserves(g: Graph, src: nat, d: seq<Distance>, p: seq<seq<nat>>, q: set<nat>, done: set<nat>,
                       u: nat, pos: nat)
    requires InnerInv(g, src, d, p, q, done, u, pos) && pos < |g[u]|
    requires PredCountedSoFar(g, d, p, done, u, pos)
    ensures var r := Relax(d, p, u, g[u][pos]);
            PredCountedSoFar(g, r.0, r.1, done, u, pos + 1)
  {
    var e := g[u][pos];
    assert e.weight > 0 && e.v < |g|;
    RelaxCases(d, p, u, e);
    if d[u].Finite? {
      var alt := Finite(d[u].n + e.weight);
      if e.v in done || e.v == u {
        assert Le(d[e.v], d[u]);
        CountSkip(g, d, p, done, u, pos);
      } else if Lt(alt, d[e.v]) {
        RelaxedNoTight(g, d, done, u, pos);
        CountStrict(g, d, p, done, u, pos);
      } else if alt == d[e.v] {
        CountTie(g, d, p, done, u, pos);
      } else {
        CountSkip(g, d, p, done, u, pos);
      }
    } else {
      CountSkip(g, d, p, done, u, pos);
    }
  }

  /** The three outcomes of a relaxation, as whole states. */
  lemma RelaxCases(d: seq<Distance>, p: seq<seq<nat>>, u: nat, e: Edge)
    requires |d| == |p| && u < |d| && e.v < |d|
    ensures d[u].Infinity? ==> Relax(d, p, u, e) == (d, p)
    ensures d[u].Finite? ==>
              var alt := Finite(d[u].n + e.weight);
              && (Lt(alt, d[e.v]) ==> Relax(d, p, u, e) == (d[e.v := alt], p[e.v := [u]]))
              && (alt == d[e.v] ==> Relax(d, p, u, e) == (d, p[e.v := [u] + p[e.v]]))
              && (Lt(d[e.v], alt) ==> Relax(d, p, u, e) == (d, p))
  {
  }

  /** The relaxed edges of u grow by the edge at `pos`; no other vertex's relaxed edges change. */
  lemma RelaxedEdgesStep(g: Graph, done: set<nat>, u: nat, pos: nat, x: nat)
    requires u < |g| && pos < |g[u]| && u !in done && x < |g|
    ensures x == u ==> RelaxedEdges(g, done, u, pos + 1, x) == RelaxedEdges(g, done, u, pos, x) + [g[u][pos]]
    ensures x != u ==> RelaxedEdges(g, done, u, pos + 1, x) == RelaxedEdges(g, done, u, pos, x)
  {
    assert g[u][..pos + 1] == g[u][..pos] + [g[u][pos]];
  }

  /** Relaxing the edge at `pos` adds that edge, and nothing else, to the tight-edge counts. */
  lemma TightStep(g: Graph, done: set<nat>, u: nat, pos: nat, x: nat, dx: Distance, dv: Distance, v: nat)
    requires u < |g| && pos < |g[u]| && u !in done && x < |g|
    ensures TightIn(RelaxedEdges(g, done, u, pos + 1, x), dx, dv, v) ==
            TightIn(RelaxedEdges(g, done, u, pos, x), dx, dv, v) +
            (if x == u && dx.Finite? && dv.Finite? && g[u][pos] == Edge(v, dv.n - dx.n) then 1 else 0)
  {
    RelaxedEdgesStep(g, done, u, pos, x);
  }

  lemma CountSkip(g: Graph, d: seq<Distance>, p: seq<seq<nat>>, done: set<nat>, u: nat, pos: nat)
    requires |d| == |g| && |p| == |g| && u < |g| && pos < |g[u]| && u !in done && g[u][pos].v < |g|
    requires PredCountedSoFar(g, d, p, done, u, pos)
    requires d[u].Finite? ==> Lt(d[g[u][pos].v], Finite(d[u].n + g[u][pos].weight))
    ensures PredCountedSoFar(g, d, p, done, u, pos + 1)
  {
    forall v, x | 0 <= v < |g| && 0 <= x < |g|
      ensures multiset(p[v])[x] == TightIn(RelaxedEdges(g, done, u, pos + 1, x), d[x], d[v], v)
    {
      TightStep(g, done, u, pos, x, d[x], d[v], v);
    }
  }

  lemma CountTie(g: Graph, d: seq<Distance>, p: seq<seq<nat>>, done: set<nat>, u: nat, pos: nat)
    requires |d| == |g| && |p| == |g| && u < |g| && pos < |g[u]| && u !in done && g[u][pos].v < |g|
    requires PredCountedSoFar(g, d, p, done, u, pos)
    requires d[u].Finite? && Finite(d[u].n + g[u][pos].weight) == d[g[u][pos].v]
    ensures PredCountedSoFar(g, d, p[g[u][pos].v := [u] + p[g[u][pos].v]], done, u, pos + 1)
  {
    var e := g[u][pos];
    var p' := p[e.v := [u] + p[e.v]];
    forall v, x | 0 <= v < |g| && 0 <= x < |g|
      ensures multiset(p'[v])[x] == TightIn(RelaxedEdges(g, done, u, pos + 1, x), d[x], d[v], v)
    {
      TightStep(g, done, u, pos, x, d[x], d[v], v);
      if v == e.v {
        assert multiset(p'[v]) == multiset{u} + multiset(p[v]);
      }
    }
  }

  lemma CountStrict(g: Graph, d: seq<Distance>, p: seq<seq<nat>>, done: set<nat>, u: nat, pos: nat)
    requires ValidGraph(g) && |d| == |g| && |p| == |g| && u < |g| && pos < |g[u]| && u !in done
    requires NoTightYet(g, d, done, u, pos)
    requires PredCountedSoFar(g, d, p, done, u, pos)
    requires d[u].Finite? && g[u][pos].v !in done && g[u][pos].v != u
    requires Lt(Finite(d[u].n + g[u][pos].weight), d[g[u][pos].v])
    ensures var e := g[u][pos];
            PredCountedSoFar(g, d[e.v := Finite(d[u].n + e.weight)], p[e.v := [u]], done, u, pos + 1)
  {
    var e := g[u][pos];
    var alt := Finite(d[u].n + e.weight);
    var d' := d[e.v := alt];
    var p' := p[e.v := [u]];
    forall v, x | 0 <= v < |g| && 0 <= x < |g|
      ensures multiset(p'[v])[x] == TightIn(RelaxedEdges(g, done, u, pos + 1, x), d'[x], d'[v], v)
    {
      StrictPoint(g, d, p, done, u, pos, v, x);
    }
  }

  /** CountStrict for one pair (v, x). */
  lemma StrictPoint(g: Graph, d: seq<Distance>, p: seq<seq<nat>>, done: set<nat>, u: nat, pos: nat, v: nat, x: nat)
    requires ValidGraph(g) && |d| == |g| && |p| == |g| && u < |g| && pos < |g[u]| && u !in done
    requires v < |g| && x < |g|
    requires NoTightYet(g, d, done, u, pos)
    requires multiset(p[v])[x] == TightIn(RelaxedEdges(g, done, u, pos, x), d[x], d[v], v)
    requires d[u].Finite? && g[u][pos].v !in done && g[u][pos].v != u
    requires Lt(Finite(d[u].n + g[u][pos].weight), d[g[u][pos].v])
    ensures var e := g[u][pos];
            var d' := d[e.v := Finite(d[u].n + e.weight)];
            multiset(p[e.v := [u]][v])[x] == TightIn(RelaxedEdges(g, done, u, pos + 1, x), d'[x], d'[v], v)
  {
    var e := g[u][pos];
    if v == e.v {
      NoEarlierTie(g, d, done, u, pos, x);
      assert multiset([u])[x] == (if x == u then 1 else 0);
    } else {
      StrictOther(g, d, done, u, pos, x, v);
    }
  }

  /** A strict improvement of g[u][pos].v leaves the counts into every other vertex v as they were. */
  lemma StrictOther(g: Graph, d: seq<Distance>, done: set<nat>, u: nat, pos: nat, x: nat, v: nat)
    requires |d| == |g| && u < |g| && pos < |g[u]| && u !in done && x < |g| && v < |g|
    requires g[u][pos].v < |g| && g[u][pos].v !in done && g[u][pos].v != u
    requires v != g[u][pos].v && d[u].Finite?
    ensures var d' := d[g[u][pos].v := Finite(d[u].n + g[u][pos].weight)];
            TightIn(RelaxedEdges(g, done, u, pos + 1, x), d'[x], d'[v], v) ==
            TightIn(RelaxedEdges(g, done, u, pos, x), d[x], d[v], v)
  {
    var e := g[u][pos];
    var d' := d[e.v := Finite(d[u].n + e.weight)];
    TightStep(g, done, u, pos, x, d'[x], d'[v], v);
    if x == e.v {
      assert RelaxedEdges(g, done, u, pos, x) == [];
    }
  }

  /** No edge relaxed so far reaches g[u][pos].v with the length the edge at `pos` offers it. */
  ghost predicate NoTightYet(g: Graph, d: seq<Distance>, done: set<nat>, u: nat, pos: nat)
    requires |d| == |g| && u < |g| && pos < |g[u]|
  {
    forall x {:trigger RelaxedEdges(g, done, u, pos, x)} :: 0 <= x < |g| && d[x].Finite? && d[u].Finite? ==>
      Edge(g[u][pos].v, d[u].n + g[u][pos].weight - d[x].n) !in RelaxedEdges(g, done, u, pos, x)
  }

  /** When the edge at `pos` improves its target strictly, no earlier relaxed edge achieved that length. */
  lemma RelaxedNoTight(g: Graph, d: seq<Distance>, done: set<nat>, u: nat, pos: nat)
    requires ValidGraph(g) && |d| == |g| && u < |g| && pos < |g[u]| && u !in done
    requires Relaxed(g, d, done, u, pos)
    requires d[u].Finite? && Lt(Finite(d[u].n + g[u][pos].weight), d[g[u][pos].v])
    ensures NoTightYet(g, d, done, u, pos)
  {
    forall x | 0 <= x < |g| && d[x].Finite?
      ensures Edge(g[u][pos].v, d[u].n + g[u][pos].weight - d[x].n) !in RelaxedEdges(g, done, u, pos, x)
    {
      var target := Edge(g[u][pos].v, d[u].n + g[u][pos].weight - d[x].n);
      var es := RelaxedEdges(g, done, u, pos, x);
      assert forall k :: 0 <= k < |es| ==> Processed(done, u, pos, x, k) && es[k] == g[x][k];
    }
  }

  /**
   * After a strict improvement of v = g[u][pos].v to alt, exactly one relaxed edge achieves
   * alt: the edge itself (every earlier one satisfied d[v] <= d[x] + w > alt).
   */
  lemma NoEarlierTie(g: Graph, d: seq<Distance>, done: set<nat>, u: nat, pos: nat, x: nat)
    requires ValidGraph(g) && |d| == |g| && u < |g| && pos < |g[u]| && u !in done && x < |g|
    requires NoTightYet(g, d, done, u, pos)
    requires d[u].Finite? && g[u][pos].v !in done && g[u][pos].v != u
    requires Lt(Finite(d[u].n + g[u][pos].weight), d[g[u][pos].v])
    ensures var e := g[u][pos];
            var alt := Finite(d[u].n + e.weight);
            TightIn(RelaxedEdges(g, done, u, pos + 1, x), d[e.v := alt][x], alt, e.v) == (if x == u then 1 else 0)
  {
    var e := g[u][pos];
    var v := e.v;
    var alt := Finite(d[u].n + e.weight);
    var d' := d[v := alt];
    RelaxedEdgesStep(g, done, u, pos, x);
    var es := RelaxedEdges(g, done, u, pos, x);
    if x == v {
      assert es == [] && RelaxedEdges(g, done, u, pos + 1, x) == [];
    } else if d[x].Finite? {
      var target := Edge(v, alt.n - d[x].n);
      assert d'[x] == d[x];
      assert multiset(es)[target] == 0;
      if x == u {
        assert e == target;
      }
    }
  }

  // ---------------------------------------------------------------------------
  // What the final state means: shortest walks.

  /** No walk from the source is shorter than the computed distance. */
  lemma {:induction false} WalkLowerBound(g: Graph, src: nat, d: seq<Distance>, p: seq<seq<nat>>, t: nat, w: seq<Arc>)
    requires SettledTree(g, src, d, p) && IsWalk(g, src, t, w)
    ensures t < |g| && d[t].Finite? && d[t].n <= WalkWeight(w)
    decreases |w|
  {
    if w == [] {
    } else {
      WalkInit(g, src, t, w);
      var a := w[|w| - 1];
      var x := a.from;
      WalkLowerBound(g, src, d, p, x, w[..|w| - 1]);
      var k :| 0 <= k < |g[x]| && g[x][k] == Edge(a.to, a.weight);
      assert Le(d[t], Finite(d[x].n + a.weight));
    }
  }

  /** Every finite distance is the weight of a walk along recorded predecessors. */
  lemma {:induction false} ShortestWitness(g: Graph, src: nat, d: seq<Distance>, p: seq<seq<nat>>, t: nat)
    requires SettledTree(g, src, d, p) && t < |g| && d[t].Finite?
    ensures exists w :: IsWalk(g, src, t, w) && WalkWeight(w) == d[t].n
    decreases d[t].n
  {
    if t == src {
      assert IsWalk(g, src, t, []) && WalkWeight([]) == 0;
    } else {
      assert PredNonEmpty(src, d, p);
      assert p[t] != [];
      var x := p[t][0];
      assert x in p[t];
      var a := Arc(x, t, d[t].n - d[x].n);
      assert IsArc(g, a);
      var k :| 0 <= k < |g[x]| && g[x][k] == Edge(t, a.weight);
      ShortestWitness(g, src, d, p, x);
      var wx :| IsWalk(g, src, x, wx) && WalkWeight(wx) == d[x].n;
      WalkSnoc(g, src, x, wx, a);
    }
  }

  lemma SettledIsShortest(g: Graph, src: nat, d: seq<Distance>, p: seq<seq<nat>>)
    requires SettledTree(g, src, d, p)
    ensures forall t :: 0 <= t < |g| ==> IsShortestDistance(g, src, t, d[t])
  {
    forall t | 0 <= t < |g|
      ensures IsShortestDistance(g, src, t, d[t])
    {
      forall w | IsWalk(g, src, t, w)
        ensures d[t].Finite? && d[t].n <= WalkWeight(w)
      {
        WalkLowerBound(g, src, d, p, t, w);
      }
      if d[t].Finite? {
        ShortestWitness(g, src, d, p, t);
      }
    }
  }

  /** The source and the unreachable vertices, and only they, have no predecessors. */
  lemma SettledPredEmpty(g: Graph, src: nat, d: seq<Distance>, p: seq<seq<nat>>)
    requires SettledTree(g, src, d, p)
    ensures forall v :: 0 <= v < |g| ==> (p[v] == [] <==> v == src || d[v] == Infinity)
  {
    assert PredNonEmpty(src, d, p);
    forall v | 0 <= v < |g| && p[v] != []
      ensures v != src && d[v].Finite?
    {
      var x := p[v][0];
      assert x in p[v];
      assert x < |g| && d[v].Finite? && d[x].Finite? && Edge(v, d[v].n - d[x].n) in g[x];
      var k :| 0 <= k < |g[x]| && g[x][k] == Edge(v, d[v].n - d[x].n);
      assert g[x][k].weight > 0 && d[x].n >= 0;
    }
  }

  /** Shortest distances are unique: two results for the same query agree. */
  lemma ShortestDistanceUnique(g: Graph, s: nat, t: nat, a: Distance, b: Distance)
    requires IsShortestDistance(g, s, t, a) && IsShortestDistance(g, s, t, b)
    ensures a == b
  {
    if a.Finite? {
      var wa :| IsWalk(g, s, t, wa) && WalkWeight(wa) == a.n;
      var wb :| IsWalk(g, s, t, wb) && WalkWeight(wb) == b.n;
    }
  }

  /**
   * The result does not depend on how the queue breaks ties: two final states for
   * the same query have the same distances and the same predecessors, each
   * recorded as often (only the order inside a list may differ).
   */
  lemma SettledDetermined(g: Graph, src: nat, d1: seq<Distance>, p1: seq<seq<nat>>, d2: seq<Distance>, p2: seq<seq<nat>>)
    requires SettledTree(g, src, d1, p1) && PredCounted(g, d1, p1)
    requires SettledTree(g, src, d2, p2) && PredCounted(g, d2, p2)
    ensures d1 == d2
    ensures forall v :: 0 <= v < |g| ==> multiset(p1[v]) == multiset(p2[v])
  {
    SettledIsShortest(g, src, d1, p1);
    SettledIsShortest(g, src, d2, p2);
    forall t | 0 <= t < |g|
      ensures d1[t] == d2[t]
    {
      ShortestDistanceUnique(g, src, t, d1[t], d2[t]);
    }
    forall v | 0 <= v < |g|
      ensures multiset(p1[v]) == multiset(p2[v])
    {
      forall x
        ensures multiset(p1[v])[x] == multiset(p2[v])[x]
      {
        if x >= |g| {
          assert x !in p1[v] && x !in p2[v];
        }
      }
    }
  }
}
