/**
 The proximity graph over the points: its construction through the grid
 (`construire_graphe`), and connectivity under the closeness relation, which
 says what a connected component is.
 */
module ProximityGraph {
  import opened Geometry
  import opened SpatialGrid

  /** Point index -> indices of the points found close to it. */
  type Adjacency = map<nat, seq<nat>>

  /**
   What `construire_graphe` builds: a key for every point, and each point's list
   holds, once each, exactly the points close to it (the point itself included).
   */
  ghost predicate IsProximityGraph(pts: seq<Point>, d: int, edges: Adjacency)
  {
    && edges.Keys == Indices(|pts|)
    && forall i :: i in edges ==> ListsClosePoints(pts, d, i, edges[i])
  }

  /** `l` lists, once each, exactly the points close to point `i`. */
  ghost predicate ListsClosePoints(pts: seq<Point>, d: int, i: nat, l: seq<nat>)
    requires i < |pts|
  {
    && Distinct(l)
    && forall j: nat :: j in l <==> j < |pts| && Close(pts[i], pts[j], d)
  }

  /** `construire_graphe`: every point gets the list of its candidates that pass the exact test. */
  method BuildGraph(pts: seq<Point>, d: int) returns (vertices: set<nat>, edges: Adjacency)
    requires d != 0 || |pts| == 0
    ensures vertices == Indices(|pts|)
    ensures IsProximityGraph(pts, d, edges)
  {
    var n := |pts|;
    vertices := Indices(n);
    edges := map i | i in vertices :: [];
    var grid := CreateGrid(pts, d);
    for i := 0 to n
      invariant edges.Keys == vertices
      invariant forall k: nat :: k < i ==> ListsClosePoints(pts, d, k, edges[k])
    {
      var l := CloseNeighbours(pts, d, grid, vertices, i);
      ghost var before := edges;
      edges := edges[i := l];
      RecordList(pts, d, before, i, l, edges);
    }
  }

  /** The inner loop of `construire_graphe` for point `i`: its candidates, filtered by the exact test. */
  method CloseNeighbours(pts: seq<Point>, d: int, grid: Grid, vertices: set<nat>, i: nat) returns (l: seq<nat>)
    requires d != 0 && IsGridOf(pts, d, grid)
    requires vertices == Indices(|pts|) && i < |pts|
    ensures ListsClosePoints(pts, d, i, l)
  {
    var cands := Candidates(pts[i], grid, d);
    CandidatesDistinct(pts, d, grid, CellOf(pts[i], d));
    forall j: nat | j < |pts| && Close(pts[i], pts[j], d) ensures j in cands {
      CandidatesIncludeClosePoints(pts, d, grid, pts[i], j);
    }
    l := [];
    for m := 0 to |cands|
      invariant forall j: nat :: j in l <==> j in cands[..m] && j < |pts| && Close(pts[i], pts[j], d)
      invariant Distinct(l)
    {
      var v := cands[m];
      PrefixGrows(cands, m);
      if v in vertices && Close(pts[i], pts[v], d) {
        DistinctPrefixExcludesNext(cands, m);
        DistinctAppend(l, v);
        l := l + [v];
      }
    }
    assert cands[..|cands|] == cands;
  }

  /** Recording the list of point `i` keeps the lists of the points before it. */
  lemma RecordList(pts: seq<Point>, d: int, edges: Adjacency, i: nat, l: seq<nat>, edges': Adjacency)
    requires edges.Keys == Indices(|pts|) && i < |pts|
    requires forall k: nat :: k < i ==> ListsClosePoints(pts, d, k, edges[k])
    requires ListsClosePoints(pts, d, i, l)
    requires edges' == edges[i := l]
    ensures forall k: nat :: k < i + 1 ==> ListsClosePoints(pts, d, k, edges'[k])
  {
    forall k: nat | k < i + 1 ensures ListsClosePoints(pts, d, k, edges'[k]) {
      if k < i {
        assert edges'[k] == edges[k];
      } else {
        assert edges'[k] == l;
      }
    }
  }

  /** One more entry of the prefix; stated apart because the sequence identity is costly inside a loop body. */
  lemma PrefixGrows(s: seq<nat>, m: nat)
    requires m < |s|
    ensures s[..m + 1] == s[..m] + [s[m]]
  {
  }

  lemma DistinctPrefixExcludesNext(s: seq<nat>, m: nat)
    requires Distinct(s) && m < |s|
    ensures s[m] !in s[..m]
  {
  }

  lemma DistinctAppend(s: seq<nat>, x: nat)
    requires Distinct(s) && x !in s
    ensures Distinct(s + [x])
  {
  }

  /** Adjacency is symmetric in content: `j` is listed for `i` exactly when `i` is listed for `j`. */
  lemma AdjacencySymmetric(pts: seq<Point>, d: int, edges: Adjacency, i: nat, j: nat)
    requires IsProximityGraph(pts, d, edges)
    requires i in edges && j in edges[i]
    ensures j in edges && i in edges[j]
  {
    assert ListsClosePoints(pts, d, i, edges[i]);
    CloseSymmetricReflexive(pts[i], pts[j], d);
    assert j in edges;
    assert ListsClosePoints(pts, d, j, edges[j]);
  }

  /** Self-pairs are not excluded: every point is listed among its own neighbours. */
  lemma SelfAdjacent(pts: seq<Point>, d: int, edges: Adjacency, i: nat)
    requires IsProximityGraph(pts, d, edges)
    requires i < |pts|
    ensures i in edges && i in edges[i]
  {
    CloseSymmetricReflexive(pts[i], pts[i], d);
    assert ListsClosePoints(pts, d, i, edges[i]);
  }

  /** A sequence of point indices, each point close to the next. */
  ghost predicate IsChain(pts: seq<Point>, d: int, w: seq<nat>)
  {
    && |w| > 0
    && (forall k :: 0 <= k < |w| ==> w[k] < |pts|)
    && (forall k :: 0 <= k < |w| - 1 ==> Close(pts[w[k]], pts[w[k + 1]], d))
  }

  /** Points `i` and `j` are joined by a chain of close points. */
  ghost predicate Connected(pts: seq<Point>, d: int, i: nat, j: nat)
  {
    exists w :: IsChain(pts, d, w) && w[0] == i && w[|w| - 1] == j
  }

  /** The connected component of point `i`. */
  ghost function ComponentOf(pts: seq<Point>, d: int, i: nat): set<nat>
  {
    set j: nat | j < |pts| && Connected(pts, d, i, j)
  }

  /** A point belongs to its own component. */
  lemma InOwnComponent(pts: seq<Point>, d: int, i: nat)
    requires i < |pts|
    ensures i in ComponentOf(pts, d, i)
  {
    assert IsChain(pts, d, [i]);
  }

  /** Components are closed under closeness: a point close to a member is a member. */
  lemma CloseNeighbourInComponent(pts: seq<Point>, d: int, s: nat, i: nat, j: nat)
    requires i in ComponentOf(pts, d, s)
    requires j < |pts| && Close(pts[i], pts[j], d)
    ensures j in ComponentOf(pts, d, s)
  {
    var w :| IsChain(pts, d, w) && w[0] == s && w[|w| - 1] == i;
    assert IsChain(pts, d, w + [j]);
  }

  /** Reversing a chain gives a chain. */
  lemma ConnectedSymmetric(pts: seq<Point>, d: int, i: nat, j: nat)
    requires Connected(pts, d, i, j)
    ensures Connected(pts, d, j, i)
  {
    var w :| IsChain(pts, d, w) && w[0] == i && w[|w| - 1] == j;
    var r := seq(|w|, k requires 0 <= k < |w| => w[|w| - 1 - k]);
    forall k | 0 <= k < |r| - 1 ensures Close(pts[r[k]], pts[r[k + 1]], d) {
      CloseSymmetricReflexive(pts[r[k]], pts[r[k + 1]], d);
      assert r[k] == w[|w| - 1 - k] && r[k + 1] == w[|w| - 1 - k - 1];
    }
    assert IsChain(pts, d, r);
  }

  /** Chains meeting end to start join up. */
  lemma ConnectedTransitive(pts: seq<Point>, d: int, i: nat, j: nat, k: nat)
    requires Connected(pts, d, i, j) && Connected(pts, d, j, k)
    ensures Connected(pts, d, i, k)
  {
    var u :| IsChain(pts, d, u) && u[0] == i && u[|u| - 1] == j;
    var v :| IsChain(pts, d, v) && v[0] == j && v[|v| - 1] == k;
    var w := u + v[1..];
    forall t | 0 <= t < |w| - 1 ensures Close(pts[w[t]], pts[w[t + 1]], d) {
      if t < |u| - 1 {
        assert w[t] == u[t] && w[t + 1] == u[t + 1];
      } else {
        assert w[t] == v[t - |u| + 1] && w[t + 1] == v[t - |u| + 2];
      }
    }
    assert IsChain(pts, d, w);
  }

  /** Every member of a component has that same component. */
  lemma ComponentOfMember(pts: seq<Point>, d: int, s: nat, i: nat)
    requires i in ComponentOf(pts, d, s)
    ensures ComponentOf(pts, d, i) == ComponentOf(pts, d, s)
  {
    ConnectedSymmetric(pts, d, s, i);
    forall j | j in ComponentOf(pts, d, i) ensures j in ComponentOf(pts, d, s) {
      ConnectedTransitive(pts, d, s, i, j);
    }
    forall j | j in ComponentOf(pts, d, s) ensures j in ComponentOf(pts, d, i) {
      ConnectedTransitive(pts, d, i, s, j);
    }
  }
}
