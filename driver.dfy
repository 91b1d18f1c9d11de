/**
 `print_components_sizes` without the printing: build the graph, explore
 components from arbitrary pending points until none is left, and sort the sizes
 in non-increasing order.
 */
module Driver {
  import opened Geometry
  import opened SpatialGrid
  import opened ProximityGraph
  import opened Components
  import opened Sorting

  /** `c` is the connected component of some point. */
  ghost predicate IsComponent(pts: seq<Point>, d: int, c: set<nat>)
  {
    exists s: nat :: s < |pts| && c == ComponentOf(pts, d, s)
  }

  /** All the sets listed, together. */
  ghost function Union(comps: seq<set<nat>>): set<nat>
  {
    if comps == [] then {} else comps[0] + Union(comps[1..])
  }

  /** The size of each set listed, in order. */
  ghost function Cardinalities(comps: seq<set<nat>>): seq<nat>
  {
    if comps == [] then [] else [|comps[0]|] + Cardinalities(comps[1..])
  }

  /** The sets listed are components, no two of them overlap, and together they hold every point. */
  ghost predicate IsComponentList(pts: seq<Point>, d: int, comps: seq<set<nat>>)
  {
    && (forall k :: 0 <= k < |comps| ==> IsComponent(pts, d, comps[k]))
    && (forall a, b :: 0 <= a < b < |comps| ==> comps[a] !! comps[b])
    && Union(comps) == Indices(|pts|)
  }

  /** No point of `p` is close to a point outside it. */
  ghost predicate ClosedUnderCloseness(pts: seq<Point>, d: int, p: set<nat>)
  {
    forall u: nat, v: nat :: u in p && u < |pts| && v < |pts| && Close(pts[u], pts[v], d) ==> v in p
  }

  lemma {:induction false} UnionMembers(comps: seq<set<nat>>)
    ensures forall x :: x in Union(comps) <==> exists k :: 0 <= k < |comps| && x in comps[k]
  {
    if comps != [] {
      UnionMembers(comps[1..]);
      forall x | x in Union(comps) ensures exists k :: 0 <= k < |comps| && x in comps[k] {
        if x !in comps[0] {
          assert x in Union(comps[1..]);
          var k :| 0 <= k < |comps| - 1 && x in comps[1..][k];
          assert x in comps[k + 1];
        }
      }
      forall x, k | 0 <= k < |comps| && x in comps[k] ensures x in Union(comps) {
        if k > 0 {
          assert x in comps[1..][k - 1];
        }
      }
    }
  }

  lemma {:induction false} UnionAppend(comps: seq<set<nat>>, c: set<nat>)
    ensures Union(comps + [c]) == Union(comps) + c
  {
    if comps != [] {
      assert (comps + [c])[1..] == comps[1..] + [c];
      UnionAppend(comps[1..], c);
    } else {
      assert (comps + [c])[1..] == [];
    }
  }

  lemma {:induction false} CardinalitiesAppend(comps: seq<set<nat>>, c: set<nat>)
    ensures Cardinalities(comps + [c]) == Cardinalities(comps) + [|c|]
  {
    if comps != [] {
      assert (comps + [c])[1..] == comps[1..] + [c];
      CardinalitiesAppend(comps[1..], c);
    } else {
      assert (comps + [c])[1..] == [];
    }
  }

  /** The sizes of non-overlapping sets add up to the size of their union. */
  lemma {:induction false} SumOfDisjoint(comps: seq<set<nat>>)
    requires forall a, b :: 0 <= a < b < |comps| ==> comps[a] !! comps[b]
    ensures Sum(Cardinalities(comps)) == |Union(comps)|
  {
    if comps != [] {
      var rest := comps[1..];
      forall a, b | 0 <= a < b < |rest| ensures rest[a] !! rest[b] {
        assert rest[a] == comps[a + 1] && rest[b] == comps[b + 1];
      }
      SumOfDisjoint(rest);
      UnionMembers(rest);
      forall x | x in comps[0] ensures x !in Union(rest) {
        forall k | 0 <= k < |rest| ensures x !in rest[k] {
          assert comps[0] !! comps[k + 1];
        }
      }
    }
  }

  /** Points left after removing whole components are closed under closeness. */
  lemma PendingClosed(pts: seq<Point>, d: int, comps: seq<set<nat>>, p: set<nat>)
    requires forall k :: 0 <= k < |comps| ==> IsComponent(pts, d, comps[k])
    requires p == Indices(|pts|) - Union(comps)
    ensures ClosedUnderCloseness(pts, d, p)
  {
    UnionMembers(comps);
    forall u: nat, v: nat | u in p && u < |pts| && v < |pts| && Close(pts[u], pts[v], d) ensures v in p {
      if v !in p {
        var k :| 0 <= k < |comps| && v in comps[k];
        var s: nat :| s < |pts| && comps[k] == ComponentOf(pts, d, s);
        CloseSymmetricReflexive(pts[u], pts[v], d);
        CloseNeighbourInComponent(pts, d, s, v, u);
        assert false;
      }
    }
  }

  /** A walk through the proximity graph is a chain of close points. */
  lemma WalkIsChain(pts: seq<Point>, d: int, edges: Adjacency, p: set<nat>, w: seq<nat>)
    requires IsProximityGraph(pts, d, edges) && p <= Indices(|pts|)
    requires IsWalk(edges, p, w)
    ensures IsChain(pts, d, w)
  {
    forall k | 0 <= k < |w| - 1 ensures Close(pts[w[k]], pts[w[k + 1]], d) {
      assert ListsClosePoints(pts, d, w[k], edges[w[k]]);
    }
  }

  lemma {:induction false} ChainStaysIn(pts: seq<Point>, d: int, p: set<nat>, w: seq<nat>, k: nat)
    requires IsChain(pts, d, w) && w[0] in p && ClosedUnderCloseness(pts, d, p)
    requires k < |w|
    ensures w[k] in p
  {
    if k > 0 {
      ChainStaysIn(pts, d, p, w, k - 1);
    }
  }

  /** A chain of close points inside `p` is a walk through the proximity graph. */
  lemma ChainIsWalk(pts: seq<Point>, d: int, edges: Adjacency, p: set<nat>, w: seq<nat>)
    requires IsProximityGraph(pts, d, edges)
    requires IsChain(pts, d, w) && w[0] in p && ClosedUnderCloseness(pts, d, p)
    ensures IsWalk(edges, p, w)
  {
    forall k | 0 <= k < |w| ensures w[k] in p {
      ChainStaysIn(pts, d, p, w, k);
    }
    forall k | 0 <= k < |w| - 1 ensures w[k] in edges && w[k + 1] in edges[w[k]] {
      assert w[k] in edges;
      assert ListsClosePoints(pts, d, w[k], edges[w[k]]);
    }
  }

  /**
   In the proximity graph, exploring from `s` through a set of points closed
   under closeness reaches exactly the connected component of `s`.
   */
  lemma ReachIsComponent(pts: seq<Point>, d: int, edges: Adjacency, p: set<nat>, s: nat)
    requires IsProximityGraph(pts, d, edges)
    requires p <= Indices(|pts|) && s in p && ClosedUnderCloseness(pts, d, p)
    ensures ReachSet(edges, p, s) == ComponentOf(pts, d, s)
  {
    forall t | t in ReachSet(edges, p, s) ensures t in ComponentOf(pts, d, s) {
      var w :| IsWalk(edges, p, w) && w[0] == s && w[|w| - 1] == t;
      WalkIsChain(pts, d, edges, p, w);
    }
    forall t | t in ComponentOf(pts, d, s) ensures t in ReachSet(edges, p, s) {
      var w :| IsChain(pts, d, w) && w[0] == s && w[|w| - 1] == t;
      ChainIsWalk(pts, d, edges, p, w);
      ChainStaysIn(pts, d, p, w, |w| - 1);
    }
  }

  /**
   The state of the exploration loop: the components listed so far are
   components and do not overlap, and the pending points are exactly the others.
   */
  ghost predicate Explored(pts: seq<Point>, d: int, comps: seq<set<nat>>, pending: set<nat>)
  {
    && (forall k :: 0 <= k < |comps| ==> IsComponent(pts, d, comps[k]))
    && (forall a, b :: 0 <= a < b < |comps| ==> comps[a] !! comps[b])
    && Union(comps) <= Indices(|pts|)
    && pending == Indices(|pts|) - Union(comps)
  }

  /**
   One round of the loop of `print_components_sizes`: exploring from any pending
   point removes exactly its component, which joins the list.
   */
  lemma ExploreStep(pts: seq<Point>, d: int, edges: Adjacency, comps: seq<set<nat>>, pending: set<nat>, seed: nat)
    requires IsProximityGraph(pts, d, edges)
    requires Explored(pts, d, comps, pending) && seed in pending
    ensures ReachSet(edges, pending, seed) == ComponentOf(pts, d, seed)
    ensures Explored(pts, d, comps + [ComponentOf(pts, d, seed)], pending - ComponentOf(pts, d, seed))
    ensures |pending - ComponentOf(pts, d, seed)| < |pending|
  {
    var c := ComponentOf(pts, d, seed);
    PendingClosed(pts, d, comps, pending);
    ReachIsComponent(pts, d, edges, pending, seed);
    InOwnComponent(pts, d, seed);
    RemovingShrinks(pending, c, seed);
    AddToExplored(pts, d, comps, pending, seed);
  }

  /** Listing the component of a pending point that lies among the pending points keeps the exploration state. */
  lemma AddToExplored(pts: seq<Point>, d: int, comps: seq<set<nat>>, pending: set<nat>, seed: nat)
    requires Explored(pts, d, comps, pending) && seed in pending
    requires ComponentOf(pts, d, seed) <= pending
    ensures Explored(pts, d, comps + [ComponentOf(pts, d, seed)], pending - ComponentOf(pts, d, seed))
  {
    var c := ComponentOf(pts, d, seed);
    AddComponent(pts, d, comps, c, pending);
    ExtendComponents(pts, d, comps, seed);
    UnionAppend(comps, c);
  }

  /**
   `print_components_sizes`, without the printing: the sizes of the components,
   largest first, with (as a ghost) the components in the order they were explored.
   */
  method ComponentSizes(pts: seq<Point>, d: int) returns (sizes: seq<nat>, ghost comps: seq<set<nat>>)
    requires d != 0 || |pts| == 0
    ensures IsComponentList(pts, d, comps)
    ensures NonIncreasing(sizes)
    ensures multiset(sizes) == multiset(Cardinalities(comps))
  {
    var vertices, edges := BuildGraph(pts, d);
    var graph := new Graph(vertices, edges);
    var sizesFound: seq<nat> := [];
    comps := [];
    ExploredStart(pts, d);
    while graph.pending != {}
      invariant graph.Valid() && graph.edges == edges
      invariant Explored(pts, d, comps, graph.pending)
      invariant sizesFound == Cardinalities(comps)
      decreases |graph.pending|
    {
      var seed :| seed in graph.pending;
      ghost var c := ComponentOf(pts, d, seed);
      ExploreStep(pts, d, edges, comps, graph.pending, seed);
      var size := graph.Explore(seed);
      CardinalitiesAppend(comps, c);
      comps := comps + [c];
      sizesFound := sizesFound + [size];
    }
    ExploredEnd(pts, d, comps);
    sizes := SortDescending(sizesFound);
  }

  lemma ExploredStart(pts: seq<Point>, d: int)
    ensures Explored(pts, d, [], Indices(|pts|))
  {
  }

  /** Once no point is pending, the components listed are all of them. */
  lemma ExploredEnd(pts: seq<Point>, d: int, comps: seq<set<nat>>)
    requires Explored(pts, d, comps, {})
    ensures IsComponentList(pts, d, comps)
  {
  }

  lemma RemovingShrinks(p: set<nat>, r: set<nat>, x: nat)
    requires x in p && x in r
    ensures |p - r| < |p|
  {
    var rest := p - {x};
    assert rest == (p - r) + (rest - (p - r));
    assert (p - r) !! (rest - (p - r));
    assert |rest| == |p| - 1;
  }

  /** Appending the component of a point keeps every listed set a component. */
  lemma ExtendComponents(pts: seq<Point>, d: int, comps: seq<set<nat>>, s: nat)
    requires forall k :: 0 <= k < |comps| ==> IsComponent(pts, d, comps[k])
    requires s < |pts|
    ensures forall k :: 0 <= k < |comps| + 1 ==> IsComponent(pts, d, (comps + [ComponentOf(pts, d, s)])[k])
  {
    var all := comps + [ComponentOf(pts, d, s)];
    forall k | 0 <= k < |all| ensures IsComponent(pts, d, all[k]) {
      if k < |comps| {
        assert all[k] == comps[k];
      }
    }
  }

  /** A component found among the pending points overlaps none of those already listed. */
  lemma AddComponent(pts: seq<Point>, d: int, comps: seq<set<nat>>, c: set<nat>, pending: set<nat>)
    requires forall a, b :: 0 <= a < b < |comps| ==> comps[a] !! comps[b]
    requires pending == Indices(|pts|) - Union(comps)
    requires c <= pending
    ensures forall a, b :: 0 <= a < b < |comps + [c]| ==> (comps + [c])[a] !! (comps + [c])[b]
  {
    UnionMembers(comps);
    var all := comps + [c];
    forall a, b | 0 <= a < b < |all| ensures all[a] !! all[b] {
      if b == |comps| {
        forall x | x in all[a] ensures x !in c {
          assert x in comps[a];
        }
      } else {
        assert all[a] == comps[a] && all[b] == comps[b];
      }
    }
  }

  /** The sizes add up to the number of points. */
  lemma SizesAddUp(pts: seq<Point>, d: int, sizes: seq<nat>, comps: seq<set<nat>>)
    requires IsComponentList(pts, d, comps)
    requires multiset(sizes) == multiset(Cardinalities(comps))
    ensures Sum(sizes) == |pts|
  {
    SumOfPermutation(sizes, Cardinalities(comps));
    SumOfDisjoint(comps);
  }

  lemma {:induction false} CardinalitiesMembers(comps: seq<set<nat>>)
    ensures |Cardinalities(comps)| == |comps|
    ensures forall k :: 0 <= k < |comps| ==> Cardinalities(comps)[k] == |comps[k]|
  {
    if comps != [] {
      CardinalitiesMembers(comps[1..]);
    }
  }

  /** Every size reported is at least one: a component holds the point it was found from. */
  lemma SizesPositive(pts: seq<Point>, d: int, sizes: seq<nat>, comps: seq<set<nat>>)
    requires IsComponentList(pts, d, comps)
    requires multiset(sizes) == multiset(Cardinalities(comps))
    ensures forall k :: 0 <= k < |sizes| ==> sizes[k] >= 1
  {
    CardinalitiesMembers(comps);
    forall k | 0 <= k < |sizes| ensures sizes[k] >= 1 {
      assert sizes[k] in multiset(Cardinalities(comps));
      var m :| 0 <= m < |comps| && Cardinalities(comps)[m] == sizes[k];
      var s: nat :| s < |pts| && comps[m] == ComponentOf(pts, d, s);
      InOwnComponent(pts, d, s);
    }
  }

  /** Every point's component is among those listed. */
  lemma EveryComponentListed(pts: seq<Point>, d: int, comps: seq<set<nat>>, s: nat)
    requires IsComponentList(pts, d, comps) && s < |pts|
    ensures ComponentOf(pts, d, s) in comps
  {
    UnionMembers(comps);
    assert s in Union(comps);
    var k :| 0 <= k < |comps| && s in comps[k];
    var t: nat :| t < |pts| && comps[k] == ComponentOf(pts, d, t);
    ComponentOfMember(pts, d, t, s);
  }

  /** Two close points are counted in the same component. */
  lemma ClosePointsShareComponent(pts: seq<Point>, d: int, comps: seq<set<nat>>, i: nat, j: nat)
    requires IsComponentList(pts, d, comps)
    requires i < |pts| && j < |pts| && Close(pts[i], pts[j], d)
    ensures exists k :: 0 <= k < |comps| && i in comps[k] && j in comps[k]
  {
    EveryComponentListed(pts, d, comps, i);
    InOwnComponent(pts, d, i);
    CloseNeighbourInComponent(pts, d, i, i, j);
  }

  /** A list of non-overlapping non-empty sets counts each set once. */
  lemma {:induction false} ListedOnce(comps: seq<set<nat>>, x: set<nat>)
    requires forall a, b :: 0 <= a < b < |comps| ==> comps[a] !! comps[b]
    requires forall k :: 0 <= k < |comps| ==> comps[k] != {}
    ensures multiset(comps)[x] == if x in comps then 1 else 0
  {
    if comps != [] {
      var rest := comps[1..];
      assert comps == [comps[0]] + rest;
      forall a, b | 0 <= a < b < |rest| ensures rest[a] !! rest[b] {
        assert rest[a] == comps[a + 1] && rest[b] == comps[b + 1];
      }
      ListedOnce(rest, x);
      if x == comps[0] {
        forall k | 0 <= k < |rest| ensures rest[k] != x {
          assert comps[0] !! comps[k + 1] && comps[0] != {};
        }
      }
    }
  }

  /** Every set in one complete list of components is non-empty and is in any other. */
  lemma ListedInOther(pts: seq<Point>, d: int, c1: seq<set<nat>>, c2: seq<set<nat>>)
    requires IsComponentList(pts, d, c1) && IsComponentList(pts, d, c2)
    ensures forall k :: 0 <= k < |c1| ==> c1[k] != {} && c1[k] in c2
  {
    forall k | 0 <= k < |c1| ensures c1[k] != {} && c1[k] in c2 {
      var s: nat :| s < |pts| && c1[k] == ComponentOf(pts, d, s);
      InOwnComponent(pts, d, s);
      EveryComponentListed(pts, d, c2, s);
    }
  }

  /** Any two complete lists of components list the same components, each once. */
  lemma ComponentListsAgree(pts: seq<Point>, d: int, c1: seq<set<nat>>, c2: seq<set<nat>>)
    requires IsComponentList(pts, d, c1) && IsComponentList(pts, d, c2)
    ensures multiset(c1) == multiset(c2)
  {
    ListedInOther(pts, d, c1, c2);
    ListedInOther(pts, d, c2, c1);
    forall x ensures multiset(c1)[x] == multiset(c2)[x] {
      ListedOnce(c1, x);
      ListedOnce(c2, x);
    }
  }

  lemma {:induction false} CardinalitiesConcat(a: seq<set<nat>>, b: seq<set<nat>>)
    ensures Cardinalities(a + b) == Cardinalities(a) + Cardinalities(b)
  {
    if a != [] {
      assert (a + b)[1..] == a[1..] + b;
      CardinalitiesConcat(a[1..], b);
    } else {
      assert a + b == b;
    }
  }

  lemma RemoveAt(s: seq<set<nat>>, k: nat)
    requires k < |s|
    ensures multiset(s[..k] + s[k + 1..]) == multiset(s) - multiset{s[k]}
  {
    assert s == s[..k] + [s[k]] + s[k + 1..];
  }

  lemma CardinalitiesSplice(a: seq<set<nat>>, x: set<nat>, b: seq<set<nat>>)
    ensures multiset(Cardinalities(a + [x] + b)) == multiset(Cardinalities(a + b)) + multiset(Cardinalities([x]))
  {
    CardinalitiesConcat(a + [x], b);
    CardinalitiesConcat(a, [x]);
    CardinalitiesConcat(a, b);
    var ca, cx, cb := Cardinalities(a), Cardinalities([x]), Cardinalities(b);
    assert multiset(ca + cx + cb) == multiset(ca) + multiset(cx) + multiset(cb);
    assert multiset(ca + cb) == multiset(ca) + multiset(cb);
  }

  /** Listing the same sets in another order lists the same sizes in another order. */
  lemma {:induction false} CardinalitiesOfPermutation(c1: seq<set<nat>>, c2: seq<set<nat>>)
    requires multiset(c1) == multiset(c2)
    ensures multiset(Cardinalities(c1)) == multiset(Cardinalities(c2))
    decreases |c1|
  {
    if c1 == [] {
      assert |c2| == |multiset(c2)| == 0;
    } else {
      var x := c1[0];
      assert x in multiset(c2) by {
        assert x in c1;
      }
      var k :| 0 <= k < |c2| && c2[k] == x;
      var front, back := c2[..k], c2[k + 1..];
      assert c1 == [x] + c1[1..];
      assert c2 == front + [x] + back;
      RemoveAt(c2, k);
      CardinalitiesOfPermutation(c1[1..], front + back);
      CardinalitiesConcat([x], c1[1..]);
      CardinalitiesSplice(front, x, back);
    }
  }

  /**
   The reported sizes do not depend on which pending point each round starts
   from: any two results meeting the contract of `ComponentSizes` are equal.
   */
  lemma SizesDetermined(pts: seq<Point>, d: int, s1: seq<nat>, c1: seq<set<nat>>, s2: seq<nat>, c2: seq<set<nat>>)
    requires IsComponentList(pts, d, c1) && NonIncreasing(s1) && multiset(s1) == multiset(Cardinalities(c1))
    requires IsComponentList(pts, d, c2) && NonIncreasing(s2) && multiset(s2) == multiset(Cardinalities(c2))
    ensures s1 == s2
  {
    ComponentListsAgree(pts, d, c1, c2);
    CardinalitiesOfPermutation(c1, c2);
    SortedUnique(s1, s2);
  }
}
