/**
 * Closeness and betweenness centrality over the results of the
 * shortest-path engine.  Distances are whole numbers, so the C `double`
 * sums and quotients are modelled exactly as `real`.
 *
 * The number of shortest paths is counted by walking the predecessor lists
 * back to the source: this terminates because, in a result of the engine,
 * every predecessor of a vertex is strictly closer to the source (`PredDag`).
 */
module CentralityMeasures {
  import opened Graph
  import opened Dijkstra

  /** A (source, middle, destination) triple. */
  datatype Path = Path(src: nat, middle: nat, dest: nat)

  /** One value per vertex, in an array updated in place. */
  datatype NodeValues = NodeValues(numNodes: nat, values: array<real>)

  /** A fresh value array of `numNodes` zeros (the C code uses calloc). */
  method CreateNodeValues(numNodes: nat) returns (nvs: NodeValues)
    ensures fresh(nvs.values)
    ensures nvs.numNodes == numNodes && nvs.values.Length == numNodes
    ensures forall v :: 0 <= v < numNodes ==> nvs.values[v] == 0.0
  {
    var values := new real[numNodes](_ => 0.0);
    nvs := NodeValues(numNodes, values);
  }

  /** A triple counts for betweenness when its three vertices are three different vertices. */
  function PathCheck(p: Path): (r: bool)
    ensures r <==> |{p.src, p.middle, p.dest}| == 3
  {
    var first := p.src != p.middle;
    var second := p.src != p.dest;
    var third := p.middle != p.dest;
    assert |{p.src, p.middle, p.dest}| == 3 ==> first && second && third by {
      if !first || !second || !third {
        assert |{p.src, p.middle, p.dest}| <= 2 by {
          if !first {
            assert {p.src, p.middle, p.dest} == {p.src, p.dest};
          } else if !second {
            assert {p.src, p.middle, p.dest} == {p.src, p.middle};
          } else {
            assert {p.src, p.middle, p.dest} == {p.src, p.middle};
          }
        }
      }
    }
    first && second && third
  }

  // ---------------------------------------------------------------------------
  // The predecessor DAG of one shortest-path result.

  /**
   * Well-formedness of a result that the path counts rely on: every recorded
   * predecessor is a vertex strictly closer to the source, the source has none,
   * and every other reached vertex has one.
   */
  ghost predicate PredDag(sps: ShortestPaths) {
    && |sps.dist| == sps.numNodes && |sps.pred| == sps.numNodes && sps.src < sps.numNodes
    && sps.dist[sps.src] == Finite(0) && sps.pred[sps.src] == []
    && (forall v :: 0 <= v < sps.numNodes && sps.dist[v].Finite? ==> sps.dist[v].n >= 0)
    && (forall v :: 0 <= v < sps.numNodes ==> PredsCloser(sps, v))
    && (forall v :: 0 <= v < sps.numNodes && v != sps.src && sps.dist[v].Finite? ==> sps.pred[v] != [])
  }

  /** Every predecessor of v is a vertex strictly closer to the source than v. */
  ghost predicate PredsCloser(sps: ShortestPaths, v: nat)
    requires |sps.dist| == sps.numNodes && |sps.pred| == sps.numNodes && v < sps.numNodes
  {
    forall x :: x in sps.pred[v] ==>
      x < sps.numNodes && sps.dist[x].Finite? && sps.dist[v].Finite? && sps.dist[x].n < sps.dist[v].n
  }

  /** The facts PredDag gives about one recorded predecessor x of v. */
  lemma PredCloser(sps: ShortestPaths, v: nat, x: nat)
    requires PredDag(sps) && v < sps.numNodes && x in sps.pred[v]
    ensures x < sps.numNodes && sps.dist[x].Finite? && sps.dist[v].Finite? && 0 <= sps.dist[x].n < sps.dist[v].n
    ensures Rank(sps, x) < Rank(sps, v)
  {
    assert PredsCloser(sps, v);
  }

  /** The termination measure of the path counts: the distance of a vertex. */
  ghost function Rank(sps: ShortestPaths, v: nat): nat
    requires v < |sps.dist|
  {
    if sps.dist[v].Finite? && sps.dist[v].n >= 0 then sps.dist[v].n else 0
  }

  /** Every result of the shortest-path engine is such a DAG. */
  lemma SettledIsDag(g: Graph, sps: ShortestPaths)
    requires sps.numNodes == |g| && SettledTree(g, sps.src, sps.dist, sps.pred)
    ensures PredDag(sps)
  {
    SettledPredEmpty(g, sps.src, sps.dist, sps.pred);
    assert ValidState(g, sps.src, sps.dist, sps.pred) && PredNonEmpty(sps.src, sps.dist, sps.pred);
    assert sps.pred[sps.src] == [];
    forall v, x | 0 <= v < sps.numNodes && x in sps.pred[v]
      ensures x < sps.numNodes && sps.dist[x].Finite? && sps.dist[v].Finite? && sps.dist[x].n < sps.dist[v].n
    {
      var d := sps.dist;
      assert x < |g| && d[x].Finite? && d[v].Finite? && Edge(v, d[v].n - d[x].n) in g[x];
      var k :| 0 <= k < |g[x]| && g[x][k] == Edge(v, d[v].n - d[x].n);
      assert g[x][k].weight > 0;
    }
  }

  // ---------------------------------------------------------------------------
  // Path counts: the recursions of numPaths and numPathFinder.

  /**
   * Number of predecessor chains from p.dest back to p.src.  From the source of
   * the result it is positive exactly when p.dest is reachable.
   */
  ghost function NumPaths(sps: ShortestPaths, p: Path): (r: nat)
    requires PredDag(sps) && p.dest < sps.numNodes
    ensures p.src == sps.src ==> (r > 0 <==> sps.dist[p.dest].Finite?)
    decreases Rank(sps, p.dest), 1
  {
    if p.src == p.dest then 1
    else
      assert sps.pred[p.dest] != [] ==> sps.dist[p.dest].Finite? by {
        if sps.pred[p.dest] != [] {
          PredCloser(sps, p.dest, sps.pred[p.dest][0]);
        }
      }
      SumPaths(sps, p, sps.pred[p.dest])
  }

  /** The sum of NumPaths over the predecessors `xs` of p.dest. */
  ghost function SumPaths(sps: ShortestPaths, p: Path, xs: seq<nat>): (r: nat)
    requires PredDag(sps) && p.dest < sps.numNodes
    requires forall x :: x in xs ==> x in sps.pred[p.dest]
    ensures p.src == sps.src ==> (r > 0 <==> xs != [])
    decreases Rank(sps, p.dest), 0, |xs|
  {
    if xs == [] then 0
    else
      PredCloser(sps, p.dest, xs[0]);
      assert forall x :: x in xs[1..] ==> x in xs;
      NumPaths(sps, p.(dest := xs[0])) + SumPaths(sps, p, xs[1..])
  }

  /**
   * Number of predecessor chains from p.dest back to p.src that pass through
   * p.middle.  From the source of the result these are some of the chains.
   */
  ghost function NumPathFinder(sps: ShortestPaths, p: Path): (r: nat)
    requires PredDag(sps) && p.dest < sps.numNodes
    ensures p.src == sps.src ==> r <= NumPaths(sps, p)
    decreases Rank(sps, p.dest), 1
  {
    if p.middle != p.dest then
      assert p.dest == sps.src ==> sps.pred[p.dest] == [];
      SumFinder(sps, p, sps.pred[p.dest])
    else NumPaths(sps, p)
  }

  ghost function SumFinder(sps: ShortestPaths, p: Path, xs: seq<nat>): (r: nat)
    requires PredDag(sps) && p.dest < sps.numNodes
    requires forall x :: x in xs ==> x in sps.pred[p.dest]
    ensures p.src == sps.src ==> r <= SumPaths(sps, p, xs)
    decreases Rank(sps, p.dest), 0, |xs|
  {
    if xs == [] then 0
    else
      PredCloser(sps, p.dest, xs[0]);
      assert forall x :: x in xs[1..] ==> x in xs;
      NumPathFinder(sps, p.(dest := xs[0])) + SumFinder(sps, p, xs[1..])
  }

  /** numPaths: walks the predecessor list of p.dest, counting recursively. */
  method CountPaths(sps: ShortestPaths, p: Path) returns (numP: nat)
    requires PredDag(sps) && p.dest < sps.numNodes
    ensures numP == NumPaths(sps, p)
    decreases Rank(sps, p.dest)
  {
    if p.src == p.dest {
      return 1;
    }
    numP := 0;
    var head := sps.pred[p.dest];
    while head != []
      invariant forall x :: x in head ==> x in sps.pred[p.dest]
      invariant numP + SumPaths(sps, p, head) == SumPaths(sps, p, sps.pred[p.dest])
      decreases |head|
    {
      PredCloser(sps, p.dest, head[0]);
      var s := p.(dest := head[0]);
      var c := CountPaths(sps, s);
      numP := numP + c;
      head := head[1..];
    }
  }

  /** numPathFinder: the same walk, which counts only chains that reach p.middle. */
  method FindPaths(sps: ShortestPaths, p: Path) returns (count: nat)
    requires PredDag(sps) && p.dest < sps.numNodes
    ensures count == NumPathFinder(sps, p)
    decreases Rank(sps, p.dest)
  {
    count := 0;
    if p.middle != p.dest {
      var head := sps.pred[p.dest];
      while head != []
        invariant forall x :: x in head ==> x in sps.pred[p.dest]
        invariant count + SumFinder(sps, p, head) == SumFinder(sps, p, sps.pred[p.dest])
        decreases |head|
      {
        PredCloser(sps, p.dest, head[0]);
        var s := p.(dest := head[0]);
        var c := FindPaths(sps, s);
        count := count + c;
        head := head[1..];
      }
    } else {
      count := CountPaths(sps, p);
    }
  }

  /**
   * The chains through the middle are the chains from the middle back to the
   * source, each continued by a chain from the destination back to the middle.
   */
  lemma {:induction false} FinderIsProduct(sps: ShortestPaths, p: Path)
    requires PredDag(sps) && p.dest < sps.numNodes && p.middle < sps.numNodes
    ensures NumPathFinder(sps, p) ==
            NumPaths(sps, p.(dest := p.middle)) * NumPaths(sps, Path(p.middle, p.middle, p.dest))
    decreases Rank(sps, p.dest), 1
  {
    if p.middle != p.dest {
      SumFinderIsProduct(sps, p, sps.pred[p.dest]);
    }
  }

  lemma {:induction false} SumFinderIsProduct(sps: ShortestPaths, p: Path, xs: seq<nat>)
    requires PredDag(sps) && p.dest < sps.numNodes && p.middle < sps.numNodes
    requires forall x :: x in xs ==> x in sps.pred[p.dest]
    ensures SumFinder(sps, p, xs) ==
            NumPaths(sps, p.(dest := p.middle)) * SumPaths(sps, Path(p.middle, p.middle, p.dest), xs)
    decreases Rank(sps, p.dest), 0, |xs|
  {
    if xs != [] {
      PredCloser(sps, p.dest, xs[0]);
      var a := NumPaths(sps, p.(dest := p.middle));
      FinderIsProduct(sps, p.(dest := xs[0]));
      SumFinderIsProduct(sps, p, xs[1..]);
      var b := NumPaths(sps, Path(p.middle, p.middle, xs[0]));
      var c := SumPaths(sps, Path(p.middle, p.middle, p.dest), xs[1..]);
      Distribute(a, b, c);
    }
  }

  lemma Distribute(a: int, b: int, c: int)
    ensures a * (b + c) == a * b + a * c
  {
  }

  lemma DistributeRight(a: int, b: int, c: int)
    ensures (a + b) * c == a * c + b * c
  {
  }

  // ---------------------------------------------------------------------------
  // Path counts on the graph itself.

  /** No distance is negative. */
  ghost predicate NonNegative(d: seq<Distance>) {
    forall v :: 0 <= v < |d| && d[v].Finite? ==> d[v].n >= 0
  }

  /** The termination measure of PathCount: the distance of a vertex. */
  ghost function Level(d: seq<Distance>, v: nat): nat
    requires v < |d|
  {
    if d[v].Finite? && d[v].n >= 0 then d[v].n else 0
  }

  /** An edge x -> t that achieves d[t] leaves a vertex strictly closer than t. */
  lemma TightCloser(g: Graph, d: seq<Distance>, x: nat, t: nat)
    requires ValidGraph(g) && |d| == |g| && NonNegative(d) && x < |g| && t < |g|
    requires TightCount(g, d, x, t) > 0
    ensures d[x].Finite? && d[t].Finite? && 0 <= d[x].n < d[t].n
    ensures Level(d, x) < Level(d, t)
  {
    var e := Edge(t, d[t].n - d[x].n);
    assert e in g[x];
    var k :| 0 <= k < |g[x]| && g[x][k] == e;
    assert g[x][k].weight > 0;
  }

  /**
   * The number of paths from s to t made of edges x -> y with d[x] + w == d[y]
   * (parallel edges counted separately): 1 for t == s, otherwise the sum over the
   * edges x -> t that achieve d[t] of the count for x.  With d the shortest
   * distances from s these are the shortest s -> t paths.
   */
  ghost function PathCount(g: Graph, d: seq<Distance>, s: nat, t: nat): nat
    requires ValidGraph(g) && |d| == |g| && NonNegative(d) && t < |g|
    decreases Level(d, t), 1
  {
    if t == s then 1 else TightSum(g, d, s, t, |g|)
  }

  /** The sum of PathCount over the edges into t from the vertices below k that achieve d[t]. */
  ghost function TightSum(g: Graph, d: seq<Distance>, s: nat, t: nat, k: nat): nat
    requires ValidGraph(g) && |d| == |g| && NonNegative(d) && t < |g| && k <= |g|
    decreases Level(d, t), 0, k
  {
    if k == 0 then 0
    else
      var c := TightCount(g, d, k - 1, t);
      TightSum(g, d, s, t, k - 1) +
      (if c == 0 then 0 else TightCloser(g, d, k - 1, t); c * PathCount(g, d, s, k - 1))
  }

  /** The sum of NumPaths over the vertices below k, each taken as often as the multiset `ms` holds it. */
  ghost function WeightedPaths(sps: ShortestPaths, p: Path, ms: multiset<nat>, k: nat): nat
    requires PredDag(sps) && k <= sps.numNodes
  {
    if k == 0 then 0 else WeightedPaths(sps, p, ms, k - 1) + ms[k - 1] * NumPaths(sps, p.(dest := k - 1))
  }

  lemma {:induction false} WeightedEmpty(sps: ShortestPaths, p: Path, k: nat)
    requires PredDag(sps) && k <= sps.numNodes
    ensures WeightedPaths(sps, p, multiset{}, k) == 0
  {
    if k > 0 {
      WeightedEmpty(sps, p, k - 1);
    }
  }

  lemma {:induction false} WeightedSingle(sps: ShortestPaths, p: Path, y: nat, k: nat)
    requires PredDag(sps) && k <= sps.numNodes
    ensures WeightedPaths(sps, p, multiset{y}, k) == if y < k then NumPaths(sps, p.(dest := y)) else 0
  {
    if k > 0 {
      WeightedSingle(sps, p, y, k - 1);
    }
  }

  lemma {:induction false} WeightedAdd(sps: ShortestPaths, p: Path, a: multiset<nat>, b: multiset<nat>, k: nat)
    requires PredDag(sps) && k <= sps.numNodes
    ensures WeightedPaths(sps, p, a + b, k) == WeightedPaths(sps, p, a, k) + WeightedPaths(sps, p, b, k)
  {
    if k > 0 {
      WeightedAdd(sps, p, a, b, k - 1);
      DistributeRight(a[k - 1], b[k - 1], NumPaths(sps, p.(dest := k - 1)));
    }
  }

  /** Summing NumPaths along a list is summing it over the multiset of the list. */
  lemma {:induction false} SumPathsWeighted(sps: ShortestPaths, p: Path, xs: seq<nat>)
    requires PredDag(sps) && p.dest < sps.numNodes
    requires forall x :: x in xs ==> x in sps.pred[p.dest]
    ensures SumPaths(sps, p, xs) == WeightedPaths(sps, p, multiset(xs), sps.numNodes)
    decreases |xs|
  {
    if xs == [] {
      WeightedEmpty(sps, p, sps.numNodes);
    } else {
      PredCloser(sps, p.dest, xs[0]);
      assert forall x :: x in xs[1..] ==> x in xs;
      SumPathsWeighted(sps, p, xs[1..]);
      assert xs == [xs[0]] + xs[1..];
      assert multiset(xs) == multiset{xs[0]} + multiset(xs[1..]);
      WeightedAdd(sps, p, multiset{xs[0]}, multiset(xs[1..]), sps.numNodes);
      WeightedSingle(sps, p, xs[0], sps.numNodes);
    }
  }

  /** A predecessor DAG over g whose lists hold each predecessor once per edge that achieves the distance. */
  ghost predicate CountedDag(g: Graph, sps: ShortestPaths) {
    && ValidGraph(g) && sps.numNodes == |g| && PredDag(sps) && NonNegative(sps.dist)
    && PredCounted(g, sps.dist, sps.pred)
  }

  /**
   * numPaths counts, on any result of the engine, the paths of PathCount: the
   * predecessor walk is the recurrence over the edges that achieve the distances.
   */
  lemma {:induction false} CountIsPathCount(g: Graph, sps: ShortestPaths, p: Path)
    requires CountedDag(g, sps) && p.dest < |g|
    ensures NumPaths(sps, p) == PathCount(g, sps.dist, p.src, p.dest)
    decreases Rank(sps, p.dest), 1
  {
    if p.src != p.dest {
      SumPathsWeighted(sps, p, sps.pred[p.dest]);
      WeightedIsTight(g, sps, p, |g|);
    }
  }

  lemma {:induction false} WeightedIsTight(g: Graph, sps: ShortestPaths, p: Path, k: nat)
    requires CountedDag(g, sps) && p.dest < |g| && k <= |g|
    ensures WeightedPaths(sps, p, multiset(sps.pred[p.dest]), k) == TightSum(g, sps.dist, p.src, p.dest, k)
    decreases Rank(sps, p.dest), 0, k
  {
    if k > 0 {
      WeightedIsTight(g, sps, p, k - 1);
      var x := k - 1;
      var c := TightCount(g, sps.dist, x, p.dest);
      assert multiset(sps.pred[p.dest])[x] == c;
      if c > 0 {
        PredCloser(sps, p.dest, x);
        CountIsPathCount(g, sps, p.(dest := x));
      }
    }
  }

  /**
   * The share of a triple on the graph: of the PathCount paths from s to t, the
   * fraction that are a path from s to m followed by a path from m to t.
   */
  ghost function GraphShare(g: Graph, d: seq<Distance>, p: Path): real
    requires ValidGraph(g) && |d| == |g| && NonNegative(d) && p.middle < |g| && p.dest < |g|
  {
    var total := PathCount(g, d, p.src, p.dest);
    if total == 0 then 0.0
    else (PathCount(g, d, p.src, p.middle) * PathCount(g, d, p.middle, p.dest)) as real / total as real
  }

  /** calBetweeness computes GraphShare over the distances of its result. */
  lemma ShareByGraph(g: Graph, sps: ShortestPaths, p: Path)
    requires ShortestFrom(g, p.src, sps) && PredDag(sps) && p.middle < |g| && p.dest < |g|
    ensures NonNegative(sps.dist)
    ensures Share(sps, p) == GraphShare(g, sps.dist, p)
  {
    assert ValidState(g, p.src, sps.dist, sps.pred);
    assert CountedDag(g, sps);
    CountIsPathCount(g, sps, p);
    CountIsPathCount(g, sps, p.(dest := p.middle));
    CountIsPathCount(g, sps, Path(p.middle, p.middle, p.dest));
    FinderIsProduct(sps, p);
  }

  /**
   * The share does not depend on which result for the source is used: two
   * results for the same graph and source give the same share (their
   * distances and predecessor multisets agree).
   */
  lemma ShareDetermined(g: Graph, sps1: ShortestPaths, sps2: ShortestPaths, p: Path)
    requires ShortestFrom(g, p.src, sps1) && PredDag(sps1)
    requires ShortestFrom(g, p.src, sps2) && PredDag(sps2)
    requires p.middle < |g| && p.dest < |g|
    ensures Share(sps1, p) == Share(sps2, p)
  {
    SettledDetermined(g, p.src, sps1.dist, sps1.pred, sps2.dist, sps2.pred);
    ShareByGraph(g, sps1, p);
    ShareByGraph(g, sps2, p);
  }

  // ---------------------------------------------------------------------------
  // Betweenness of one triple.

  /** Share of the shortest src -> dest paths that pass through the middle (0 when there are none). */
  ghost function Share(sps: ShortestPaths, p: Path): (r: real)
    requires PredDag(sps) && p.src == sps.src && p.dest < sps.numNodes
    ensures 0.0 <= r <= 1.0
    ensures sps.dist[p.dest] == Infinity ==> r == 0.0
    ensures p.middle == p.dest && sps.dist[p.dest].Finite? ==> r == 1.0
  {
    var total := NumPaths(sps, p);
    if total == 0 then 0.0
    else
      var through := NumPathFinder(sps, p);
      RatioAtMostOne(through, total);
      through as real / total as real
  }

  lemma RatioAtMostOne(a: nat, b: nat)
    requires a <= b && b > 0
    ensures 0.0 <= a as real / b as real <= 1.0
    ensures a == b ==> a as real / b as real == 1.0
  {
    RatioAtMostOneReal(a as real, b as real);
    if a == b {
      SelfRatio(b as real);
    }
  }

  /** calBetweeness: the share of one triple, computed with the two counts. */
  method CalBetweenness(sps: ShortestPaths, p: Path) returns (r: real)
    requires PredDag(sps) && p.src == sps.src && p.dest < sps.numNodes
    ensures r == Share(sps, p)
  {
    var numberPaths := CountPaths(sps, p);
    if numberPaths == 0 {
      return 0.0;
    }
    var numThrough := FindPaths(sps, p);
    r := numThrough as real / numberPaths as real;
  }

  // ---------------------------------------------------------------------------
  // Betweenness of a vertex: sums of shares.

  /** `row[s]` is a result for source s over `n` vertices. */
  ghost predicate SourceTrees(row: seq<ShortestPaths>, n: nat) {
    forall s :: 0 <= s < |row| ==> row[s].src == s && row[s].numNodes == n && PredDag(row[s])
  }

  /** Sum of the shares of (s, m, t) over the destinations t < k that pass PathCheck. */
  ghost function DestSum(sps: ShortestPaths, s: nat, m: nat, k: nat): real
    requires PredDag(sps) && sps.src == s && k <= sps.numNodes
  {
    if k == 0 then 0.0
    else
      DestSum(sps, s, m, k - 1) +
      (if PathCheck(Path(s, m, k - 1)) then Share(sps, Path(s, m, k - 1)) else 0.0)
  }

  lemma SourceTreesPrefix(row: seq<ShortestPaths>, n: nat)
    requires SourceTrees(row, n) && row != []
    ensures SourceTrees(row[..|row| - 1], n)
  {
    var s := |row| - 1;
    forall i | 0 <= i < s ensures row[..s][i] == row[i] { }
  }

  /** Raw betweenness of m: the sum of DestSum over the sources of `row`. */
  ghost function SrcSum(row: seq<ShortestPaths>, m: nat, n: nat): real
    requires SourceTrees(row, n)
  {
    if row == [] then 0.0
    else
      var s := |row| - 1;
      SrcSum(row[..s], m, n) + DestSum(row[s], s, m, n)
  }

  /** Each destination other than s and m adds at most 1; the others add nothing. */
  lemma {:induction false} DestSumBound(sps: ShortestPaths, s: nat, m: nat, k: nat)
    requires PredDag(sps) && sps.src == s && k <= sps.numNodes
    ensures 0.0 <= DestSum(sps, s, m, k)
    ensures s == m ==> DestSum(sps, s, m, k) == 0.0
    ensures DestSum(sps, s, m, k) <= (k - (if s < k then 1 else 0) - (if m < k && m != s then 1 else 0)) as real
  {
    if k > 0 {
      DestSumBound(sps, s, m, k - 1);
    }
  }

  /** Raw betweenness lies between 0 and the number of (s, t) pairs that avoid m. */
  lemma {:induction false} SrcSumBound(row: seq<ShortestPaths>, m: nat, n: nat)
    requires SourceTrees(row, n) && m < n && |row| <= n
    ensures 0.0 <= SrcSum(row, m, n)
    ensures SrcSum(row, m, n) <= ((|row| - (if m < |row| then 1 else 0)) * (n - 2)) as real
  {
    if row != [] {
      var s := |row| - 1;
      SourceTreesPrefix(row, n);
      SrcSumBound(row[..s], m, n);
      DestSumBound(row[s], s, m, n);
      var before, here := SrcSum(row[..s], m, n), DestSum(row[s], s, m, n);
      assert SrcSum(row, m, n) == before + here;
      var extra := if s == m then 0 else 1;
      BoundAdd(before, here, |row[..s]| - (if m < |row[..s]| then 1 else 0), n - 2, extra,
               |row| - (if m < |row| then 1 else 0));
    }
  }

  /** One more source adds at most k to a sum bounded by c * k, and nothing when it is the middle. */
  lemma BoundAdd(before: real, here: real, c: int, k: int, extra: int, count: int)
    requires extra == 0 || extra == 1
    requires count == c + extra
    requires 0.0 <= before <= (c * k) as real
    requires 0.0 <= here <= (if extra == 1 then k as real else 0.0)
    ensures 0.0 <= before + here <= (count * k) as real
  {
    if extra == 1 {
      BoundStep(c, k);
    }
  }

  lemma BoundStep(c: int, k: int)
    ensures ((c + 1) * k) as real == (c * k) as real + k as real
  {
    assert (c + 1) * k == c * k + k;
  }

  lemma {:induction false} DestSumDetermined(g: Graph, sps1: ShortestPaths, sps2: ShortestPaths, s: nat, m: nat, k: nat)
    requires ShortestFrom(g, s, sps1) && PredDag(sps1)
    requires ShortestFrom(g, s, sps2) && PredDag(sps2)
    requires m < |g| && k <= |g|
    ensures DestSum(sps1, s, m, k) == DestSum(sps2, s, m, k)
  {
    if k > 0 {
      DestSumDetermined(g, sps1, sps2, s, m, k - 1);
      ShareDetermined(g, sps1, sps2, Path(s, m, k - 1));
    }
  }

  /**
   * Raw betweenness is a function of the graph: two rows of results for the
   * same sources give the same value.
   */
  lemma {:induction false} BetweennessDetermined(g: Graph, row1: seq<ShortestPaths>, row2: seq<ShortestPaths>, m: nat)
    requires SourceTrees(row1, |g|) && SourceTrees(row2, |g|) && |row1| == |row2| && m < |g|
    requires forall s :: 0 <= s < |row1| ==> ShortestFrom(g, s, row1[s]) && ShortestFrom(g, s, row2[s])
    ensures SrcSum(row1, m, |g|) == SrcSum(row2, m, |g|)
  {
    if row1 != [] {
      var s := |row1| - 1;
      SourceTreesPrefix(row1, |g|);
      SourceTreesPrefix(row2, |g|);
      BetweennessDetermined(g, row1[..s], row2[..s], m);
      DestSumDetermined(g, row1[s], row2[s], s, m, |g|);
    }
  }

  // ---------------------------------------------------------------------------
  // Closeness.

  /** The distances of one result, as closeness reads them. */
  ghost predicate DistanceVector(d: seq<Distance>, i: nat) {
    && i < |d| && d[i] == Finite(0)
    && forall j :: 0 <= j < |d| && d[j].Finite? ==> d[j].n >= 0
  }

  /** A vertex other than the source that is reached: a distance that is neither 0 nor INFINITY. */
  predicate Counted(x: Distance) {
    x != Finite(0) && x != Infinity
  }

  /** Number of counted vertices among the first k. */
  ghost function VisitedCount(d: seq<Distance>, k: nat): nat
    requires k <= |d|
  {
    if k == 0 then 0 else VisitedCount(d, k - 1) + (if Counted(d[k - 1]) then 1 else 0)
  }

  /** Sum of the distances of the counted vertices among the first k. */
  ghost function DistanceSum(d: seq<Distance>, k: nat): real
    requires k <= |d|
  {
    if k == 0 then 0.0 else DistanceSum(d, k - 1) + (if Counted(d[k - 1]) then d[k - 1].n as real else 0.0)
  }

  /** The Wasserman and Faust formula: ((R - 1)^2 / (n - 1)) * (1 / D). */
  function CalCloseness(distanceSum: real, numVisited: int, nV: int): (r: real)
    requires distanceSum != 0.0 && nV != 1
    ensures r * ((nV - 1) as real * distanceSum) == (numVisited - 1) as real * (numVisited - 1) as real
    ensures 2 <= numVisited <= nV && (numVisited - 1) as real <= distanceSum ==> 0.0 <= r <= 1.0
  {
    var c := (numVisited - 1) as real;
    var numVisit := c * c;
    var nnV := (nV - 1) as real;
    var sum := 1.0 / distanceSum;
    ClosenessRatio(c, nnV, distanceSum);
    (numVisit / nnV) * sum
  }

  /** Closeness of vertex i whose distances are `d`: 0 for an isolated vertex or when nothing is reached. */
  ghost function Closeness(g: Graph, i: nat, d: seq<Distance>): (r: real)
    requires i < |g| && |d| == |g| && DistanceVector(d, i)
    ensures 0.0 <= r <= 1.0
    ensures (InIncident(g, i) == [] && g[i] == []) || VisitedCount(d, |d|) == 0 ==> r == 0.0
    ensures !(InIncident(g, i) == [] && g[i] == []) && VisitedCount(d, |d|) > 0 ==>
              r * ((|g| - 1) as real * DistanceSum(d, |d|)) == VisitedCount(d, |d|) as real * VisitedCount(d, |d|) as real
  {
    PrefixFacts(d, i, |d|);
    if InIncident(g, i) == [] && g[i] == [] then 0.0
    else
      var sum := DistanceSum(d, |d|);
      if sum == 0.0 then 0.0
      else
        ReachedSomething(d, i);
        CalCloseness(sum, VisitedCount(d, |d|) + 1, |g|)
  }

  /** Counts and sums over a prefix: the source is never counted and each counted distance is at least 1. */
  lemma {:induction false} PrefixFacts(d: seq<Distance>, i: nat, k: nat)
    requires DistanceVector(d, i) && k <= |d|
    ensures VisitedCount(d, k) <= k - (if i < k then 1 else 0)
    ensures VisitedCount(d, k) as real <= DistanceSum(d, k)
    ensures VisitedCount(d, k) == 0 <==> DistanceSum(d, k) == 0.0
  {
    if k > 0 {
      PrefixFacts(d, i, k - 1);
    }
  }

  /** A non-zero distance sum means some other vertex is reached, so there are at least two vertices. */
  lemma ReachedSomething(d: seq<Distance>, i: nat)
    requires DistanceVector(d, i) && DistanceSum(d, |d|) != 0.0
    ensures |d| >= 2
  {
    PrefixFacts(d, i, |d|);
  }

  /**
   * The closeness formula (c^2 / n1) * (1 / D), for c reached vertices, n1 other
   * vertices and distance sum D: times n1 * D it gives c^2, and it lies in
   * [0, 1] when 1 <= c <= n1 and c <= D.
   */
  lemma ClosenessRatio(c: real, n1: real, sum: real)
    requires n1 != 0.0 && sum != 0.0
    ensures ((c * c) / n1) * (1.0 / sum) * (n1 * sum) == c * c
    ensures 1.0 <= c <= n1 && c <= sum ==> 0.0 <= ((c * c) / n1) * (1.0 / sum) <= 1.0
  {
    var r := ((c * c) / n1) * (1.0 / sum);
    assert r * (n1 * sum) == (c * c) * ((1.0 / n1) * n1) * ((1.0 / sum) * sum);
    if 1.0 <= c <= n1 && c <= sum {
      var a, b := c / n1, c / sum;
      assert r == a * b;
      RatioAtMostOneReal(c, n1);
      RatioAtMostOneReal(c, sum);
      assert a * b <= a * 1.0;
    }
  }

  // ---------------------------------------------------------------------------
  // The three measures.

  /**
   * `sps` is a result of the shortest-path engine for source s: its final
   * state, from which Dijkstra.SettledIsShortest proves that its distances are
   * the shortest ones.
   */
  ghost predicate ShortestFrom(g: Graph, s: nat, sps: ShortestPaths) {
    && ValidGraph(g) && sps.src == s && sps.numNodes == |g|
    && SettledTree(g, s, sps.dist, sps.pred)
    && PredCounted(g, sps.dist, sps.pred)
  }

  /** The call dijkstra(g, s) as the measures use it. */
  method ShortestPathsFrom(g: Graph, s: nat) returns (sps: ShortestPaths)
    requires ValidGraph(g) && s < |g|
    ensures ShortestFrom(g, s, sps) && PredDag(sps)
    ensures |sps.dist| == |g| && DistanceVector(sps.dist, s)
  {
    ghost var order;
    sps, order := Dijkstra.Dijkstra(g, s);
    SettledIsDag(g, sps);
  }

  /** The counting loop of closenessCentrality: 1 plus the counted vertices, and the sum of their distances. */
  method CountReached(dist: seq<Distance>) returns (numVisited: int, sumDistance: real)
    ensures numVisited == 1 + VisitedCount(dist, |dist|)
    ensures sumDistance == DistanceSum(dist, |dist|)
  {
    numVisited := 1;
    sumDistance := 0.0;
    for j := 0 to |dist|
      invariant numVisited == 1 + VisitedCount(dist, j)
      invariant sumDistance == DistanceSum(dist, j)
    {
      if dist[j] != Finite(0) && dist[j] != Infinity {
        numVisited := numVisited + 1;
        sumDistance := sumDistance + dist[j].n as real;
      }
    }
  }

  /** The body of the loop of closenessCentrality for vertex i, given its distances. */
  method ClosenessOf(g: Graph, i: nat, dist: seq<Distance>) returns (value: real)
    requires i < |g| && |dist| == |g| && DistanceVector(dist, i)
    ensures value == Closeness(g, i, dist)
  {
    var numVisited, sumDistance := CountReached(dist);
    if InIncident(g, i) == [] && g[i] == [] {
      value := 0.0;
    } else if sumDistance == 0.0 {
      value := 0.0;
    } else {
      ReachedSomething(dist, i);
      value := CalCloseness(sumDistance, numVisited, |g|);
    }
  }

  method ClosenessCentrality(g: Graph) returns (nvs: NodeValues, ghost trees: seq<ShortestPaths>)
    requires ValidGraph(g)
    ensures fresh(nvs.values) && nvs.numNodes == |g| && nvs.values.Length == |g|
    ensures |trees| == |g| && forall i :: 0 <= i < |g| ==> ShortestFrom(g, i, trees[i])
    ensures forall i :: 0 <= i < |g| ==>
              |trees[i].dist| == |g| && DistanceVector(trees[i].dist, i) &&
              nvs.values[i] == Closeness(g, i, trees[i].dist)
    ensures forall i :: 0 <= i < |g| ==> 0.0 <= nvs.values[i] <= 1.0
  {
    var nV := |g|;
    nvs := CreateNodeValues(nV);
    trees := [];
    for i := 0 to nV
      invariant |trees| == i && forall i' :: 0 <= i' < i ==> ShortestFrom(g, i', trees[i'])
      invariant forall i' :: 0 <= i' < i ==>
                  |trees[i'].dist| == |g| && DistanceVector(trees[i'].dist, i') &&
                  nvs.values[i'] == Closeness(g, i', trees[i'].dist)
    {
      var sps := ShortestPathsFrom(g, i);
      var value := ClosenessOf(g, i, sps.dist);
      nvs.values[i] := value;
      trees := trees + [sps];
    }
  }

  /** One row of results per middle vertex: `trees[m][s]` is the result for source s. */
  ghost predicate TreeRows(g: Graph, trees: seq<seq<ShortestPaths>>, k: nat)
    requires k <= |trees|
  {
    forall m :: 0 <= m < k ==>
      && |trees[m]| == |g| && SourceTrees(trees[m], |g|)
      && forall s :: 0 <= s < |g| ==> ShortestFrom(g, s, trees[m][s])
  }

  /**
   * Raw betweenness: the value of m is the sum of the shares of m over every
   * triple (s, m, t) of distinct vertices, each computed on a shortest-path
   * result from s.
   */
  method BetweennessCentrality(g: Graph) returns (nvs: NodeValues, ghost trees: seq<seq<ShortestPaths>>)
    requires ValidGraph(g)
    ensures fresh(nvs.values) && nvs.numNodes == |g| && nvs.values.Length == |g|
    ensures |trees| == |g| && TreeRows(g, trees, |g|)
    ensures forall m :: 0 <= m < |g| ==> nvs.values[m] == SrcSum(trees[m], m, |g|)
    ensures forall m :: 0 <= m < |g| ==> 0.0 <= nvs.values[m] <= ((|g| - 1) * (|g| - 2)) as real
  {
    var nV := |g|;
    nvs := CreateNodeValues(nV);
    trees := [];
    for middleN := 0 to nV
      invariant |trees| == middleN && TreeRows(g, trees, middleN)
      invariant forall m :: 0 <= m < middleN ==> nvs.values[m] == SrcSum(trees[m], m, nV)
      invariant forall m :: middleN <= m < nV ==> nvs.values[m] == 0.0
    {
      ghost var row := MiddleShares(g, nvs.values, middleN);
      trees := trees + [row];
    }
    RawBounded(g, trees, nvs.values[..]);
  }

  /** Every raw betweenness value lies between 0 and the number of (s, t) pairs avoiding its vertex. */
  lemma RawBounded(g: Graph, trees: seq<seq<ShortestPaths>>, values: seq<real>)
    requires |trees| == |g| && TreeRows(g, trees, |g|) && |values| == |g|
    requires forall m :: 0 <= m < |g| ==> values[m] == SrcSum(trees[m], m, |g|)
    ensures forall m :: 0 <= m < |g| ==> 0.0 <= values[m] <= ((|g| - 1) * (|g| - 2)) as real
  {
    forall m | 0 <= m < |g|
      ensures 0.0 <= values[m] <= ((|g| - 1) * (|g| - 2)) as real
    {
      SrcSumBound(trees[m], m, |g|);
    }
  }

  /**
   * The loop over sources of betweennessCentrality for one middle vertex: computes the
   * shortest paths from every source and adds up the shares of the middle vertex.
   */
  method MiddleShares(g: Graph, values: array<real>, middleN: nat) returns (ghost row: seq<ShortestPaths>)
    requires ValidGraph(g) && values.Length == |g| && middleN < |g| && values[middleN] == 0.0
    modifies values
    ensures |row| == |g| && SourceTrees(row, |g|)
    ensures forall s :: 0 <= s < |g| ==> ShortestFrom(g, s, row[s])
    ensures values[middleN] == SrcSum(row, middleN, |g|)
    ensures forall m :: 0 <= m < |g| && m != middleN ==> values[m] == old(values[m])
  {
    var nV := |g|;
    row := [];
    for srcN := 0 to nV
      invariant |row| == srcN && SourceTrees(row, nV)
      invariant forall s :: 0 <= s < srcN ==> ShortestFrom(g, s, row[s])
      invariant values[middleN] == SrcSum(row, middleN, nV)
      invariant forall m :: 0 <= m < nV && m != middleN ==> values[m] == old(values[m])
    {
      var sps := ShortestPathsFrom(g, srcN);
      AddShares(values, sps, srcN, middleN);
      SrcSumSnoc(row, sps, middleN, nV);
      row := row + [sps];
    }
  }

  /** One more source adds its DestSum to the raw betweenness. */
  lemma SrcSumSnoc(row: seq<ShortestPaths>, sps: ShortestPaths, m: nat, n: nat)
    requires SourceTrees(row, n) && sps.src == |row| && sps.numNodes == n && PredDag(sps)
    ensures SourceTrees(row + [sps], n)
    ensures SrcSum(row + [sps], m, n) == SrcSum(row, m, n) + DestSum(sps, |row|, m, n)
  {
    assert (row + [sps])[..|row|] == row;
  }

  /** The innermost loop of betweennessCentrality: adds the share of every valid (s, m, t) to the value of m. */
  method AddShares(values: array<real>, sps: ShortestPaths, srcN: nat, middleN: nat)
    requires PredDag(sps) && sps.src == srcN && sps.numNodes == values.Length && middleN < values.Length
    modifies values
    ensures values[middleN] == old(values[middleN]) + DestSum(sps, srcN, middleN, values.Length)
    ensures forall m :: 0 <= m < values.Length && m != middleN ==> values[m] == old(values[m])
  {
    for destN := 0 to values.Length
      invariant values[middleN] == old(values[middleN]) + DestSum(sps, srcN, middleN, destN)
      invariant forall m :: 0 <= m < values.Length && m != middleN ==> values[m] == old(values[m])
    {
      var p := Path(srcN, middleN, destN);
      if PathCheck(p) {
        var share := CalBetweenness(sps, p);
        values[middleN] := values[middleN] + share;
      }
    }
  }

  /** Raw betweenness rescaled by 1 / ((n - 1)(n - 2)); every value is 0 when n <= 2. */
  method BetweennessCentralityNormalised(g: Graph) returns (nvs: NodeValues, ghost trees: seq<seq<ShortestPaths>>)
    requires ValidGraph(g)
    ensures fresh(nvs.values) && nvs.numNodes == |g| && nvs.values.Length == |g|
    ensures |trees| == |g| && TreeRows(g, trees, |g|)
    ensures forall v :: 0 <= v < |g| ==> nvs.values[v] == Normalised(SrcSum(trees[v], v, |g|), |g|)
    ensures forall v :: 0 <= v < |g| ==> 0.0 <= nvs.values[v] <= 1.0
  {
    nvs, trees := BetweennessCentrality(g);
    ghost var raw := nvs.values[..];
    Normalise(nvs.values);
    forall v | 0 <= v < |g|
      ensures 0.0 <= nvs.values[v] <= 1.0
    {
      NormalisedBounded(raw[v], |g|);
    }
  }

  /** betweennessCentralityNormalised after the raw values: computes the factor and rescales every value. */
  method Normalise(values: array<real>)
    modifies values
    ensures forall u :: 0 <= u < values.Length ==> values[u] == Normalised(old(values[u]), values.Length)
  {
    ghost var raw := values[..];
    var nV := values.Length as real;
    var normalise := 0.0;
    if nV > 2.0 {
      ProductPositive(nV - 1.0, nV - 2.0);
      normalise := 1.0 / ((nV - 1.0) * (nV - 2.0));
      Reciprocal((nV - 1.0) * (nV - 2.0));
    }
    Rescale(values, normalise, nV > 2.0);
    NormaliseMeaning(raw, values[..], normalise);
  }

  /** The loop of betweennessCentralityNormalised: multiplies every value by the factor, or zeroes it. */
  method Rescale(values: array<real>, normalise: real, scale: bool)
    modifies values
    ensures forall u :: 0 <= u < values.Length ==>
              values[u] == if scale then normalise * old(values[u]) else 0.0
  {
    for v := 0 to values.Length
      invariant forall u :: 0 <= u < v ==> values[u] == if scale then normalise * old(values[u]) else 0.0
      invariant forall u :: v <= u < values.Length ==> values[u] == old(values[u])
    {
      if scale {
        var value := normalise * values[v];
        values[v] := value;
      } else {
        values[v] := 0.0;
      }
    }
  }

  /** What the loop of betweennessCentralityNormalised leaves: the normalised raw values. */
  lemma NormaliseMeaning(raw: seq<real>, final: seq<real>, normalise: real)
    requires |final| == |raw|
    requires var nV := |raw| as real; nV > 2.0 ==> normalise * ((nV - 1.0) * (nV - 2.0)) == 1.0
    requires forall u :: 0 <= u < |raw| ==> final[u] == if |raw| as real > 2.0 then normalise * raw[u] else 0.0
    ensures forall u :: 0 <= u < |raw| ==> final[u] == Normalised(raw[u], |raw|)
  {
    forall u | 0 <= u < |raw|
      ensures final[u] == Normalised(raw[u], |raw|)
    {
      if |raw| > 2 {
        FactorMeaning(normalise, raw[u], |raw|);
      }
    }
  }

  /** raw / ((n - 1)(n - 2)) when n > 2, else 0. */
  function Normalised(raw: real, n: int): real {
    if n > 2 then raw / ((n - 1) * (n - 2)) as real else 0.0
  }

  lemma FactorMeaning(normalise: real, raw: real, n: int)
    requires n > 2 && normalise * ((n as real - 1.0) * (n as real - 2.0)) == 1.0
    ensures normalise * raw == Normalised(raw, n)
  {
    var c := ((n - 1) * (n - 2)) as real;
    assert (n as real - 1.0) * (n as real - 2.0) == c;
  }

  /** Raw betweenness is at most the number of (s, t) pairs avoiding v, so the normalised value is at most 1. */
  lemma NormalisedBounded(raw: real, n: int)
    requires 0.0 <= raw <= ((n - 1) * (n - 2)) as real
    ensures 0.0 <= Normalised(raw, n) <= 1.0
  {
    if n > 2 {
      var k := (n - 1) * (n - 2);
      ProductPositive((n - 1) as real, (n - 2) as real);
      assert k as real == (n - 1) as real * (n - 2) as real;
      RatioAtMostOneReal(raw, k as real);
    }
  }

  lemma RatioAtMostOneReal(a: real, c: real)
    requires c > 0.0 && 0.0 <= a <= c
    ensures 0.0 <= a / c <= 1.0
  {
    var q := a / c;
    assert q * c == a;
  }

  lemma SelfRatio(c: real)
    requires c > 0.0
    ensures c / c == 1.0
  {
  }

  lemma ProductPositive(x: real, y: real)
    requires x > 0.0 && y > 0.0
    ensures x * y > 0.0
  {
  }

  lemma Reciprocal(c: real)
    requires c > 0.0
    ensures (1.0 / c) * c == 1.0
  {
  }

}
