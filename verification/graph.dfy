/**
 * The graph collaborator: a directed graph whose vertices are 0 .. n-1 and whose
 * out-adjacency list of each vertex is a sequence of (neighbour, weight) edges.
 * Only the queries the algorithms use are modelled: the vertex count (|g|),
 * the outgoing list (g[v]) and the incoming list (InIncident).
 */
module Graph {

  datatype Edge = Edge(v: nat, weight: int)

  type Graph = seq<seq<Edge>>

  /** Every edge ends at a vertex of the graph and has a positive weight. */
  ghost predicate ValidGraph(g: Graph) {
    forall u, k :: 0 <= u < |g| && 0 <= k < |g[u]| ==> g[u][k].v < |g| && g[u][k].weight > 0
  }

  /** The incoming list of `v`: one Edge(u, w) for each edge u -> v of weight w. */
  function InIncident(g: Graph, v: nat): (r: seq<Edge>)
    ensures forall u: nat, w :: Edge(u, w) in r <==> u < |g| && Edge(v, w) in g[u]
  {
    InFrom(g, v, |g|)
  }

  /** The incoming edges of `v` whose source is below `k`. */
  function InFrom(g: Graph, v: nat, k: nat): (r: seq<Edge>)
    requires k <= |g|
    ensures forall u: nat, w :: Edge(u, w) in r <==> u < k && Edge(v, w) in g[u]
  {
    if k == 0 then []
    else
      var from := InFrom(g, v, k - 1);
      InFromList(g[k - 1], k - 1, v) + from
  }

  function InFromList(adj: seq<Edge>, u: nat, v: nat): (r: seq<Edge>)
    ensures forall x: nat, w :: Edge(x, w) in r <==> x == u && Edge(v, w) in adj
  {
    if adj == [] then []
    else
      var rest := InFromList(adj[1..], u, v);
      assert forall e :: e in adj <==> e == adj[0] || e in adj[1..];
      if adj[0].v == v then [Edge(u, adj[0].weight)] + rest else rest
  }

  // ---------------------------------------------------------------------------
  // Walks: the reference notion of distance the shortest-path engine is proved against.

  /** One traversal of an edge `from -> to` of weight `weight`. */
  datatype Arc = Arc(from: nat, to: nat, weight: int)

  ghost predicate IsArc(g: Graph, a: Arc) {
    a.from < |g| && Edge(a.to, a.weight) in g[a.from]
  }

  /** `w` is a walk in `g` from `s` to `t` (the empty walk when s == t). */
  ghost predicate IsWalk(g: Graph, s: nat, t: nat, w: seq<Arc>) {
    && (forall i :: 0 <= i < |w| ==> IsArc(g, w[i]))
    && (forall i :: 0 <= i < |w| - 1 ==> w[i].to == w[i + 1].from)
    && (if w == [] then s == t else w[0].from == s && w[|w| - 1].to == t)
  }

  function WalkWeight(w: seq<Arc>): int {
    if w == [] then 0 else WalkWeight(w[..|w| - 1]) + w[|w| - 1].weight
  }

  ghost predicate Reachable(g: Graph, s: nat, t: nat) {
    exists w :: IsWalk(g, s, t, w)
  }

  /** A walk extended by one arc at its end is a walk. */
  lemma {:induction false} WalkSnoc(g: Graph, s: nat, x: nat, w: seq<Arc>, a: Arc)
    requires IsWalk(g, s, x, w) && IsArc(g, a) && a.from == x
    ensures IsWalk(g, s, a.to, w + [a])
    ensures WalkWeight(w + [a]) == WalkWeight(w) + a.weight
  {
    assert (w + [a])[..|w|] == w;
  }

  /** A non-empty walk is a shorter walk followed by its last arc. */
  lemma {:induction false} WalkInit(g: Graph, s: nat, t: nat, w: seq<Arc>)
    requires IsWalk(g, s, t, w) && w != []
    ensures IsWalk(g, s, w[|w| - 1].from, w[..|w| - 1])
    ensures IsArc(g, w[|w| - 1]) && w[|w| - 1].to == t
  {
  }

  /** Along a walk of positive-weight edges, the weight is at least the number of arcs. */
  lemma {:induction false} WalkWeightAtLeastLength(g: Graph, s: nat, t: nat, w: seq<Arc>)
    requires ValidGraph(g) && IsWalk(g, s, t, w)
    ensures WalkWeight(w) >= |w|
    decreases |w|
  {
    if w != [] {
      WalkInit(g, s, t, w);
      WalkWeightAtLeastLength(g, s, w[|w| - 1].from, w[..|w| - 1]);
      var a := w[|w| - 1];
      var k :| 0 <= k < |g[a.from]| && g[a.from][k] == Edge(a.to, a.weight);
    }
  }
}
