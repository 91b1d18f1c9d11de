/**
 Exploring one connected component (`explorer_composante_connexe`): a stack
 traversal that removes from the set of pending vertices everything reachable
 from a seed, and counts what it removed.
 */
module Components {
  import opened SpatialGrid
  import opened ProximityGraph

  /** A walk along adjacency lists that stays inside `allowed`. */
  ghost predicate IsWalk(edges: Adjacency, allowed: set<nat>, w: seq<nat>)
  {
    && |w| > 0
    && (forall k :: 0 <= k < |w| ==> w[k] in allowed)
    && (forall k :: 0 <= k < |w| - 1 ==> w[k] in edges && w[k + 1] in edges[w[k]])
  }

  /** `t` can be reached from `s` without leaving `allowed`. */
  ghost predicate Reaches(edges: Adjacency, allowed: set<nat>, s: nat, t: nat)
  {
    exists w :: IsWalk(edges, allowed, w) && w[0] == s && w[|w| - 1] == t
  }

  /** Everything reachable from `s` inside `allowed`. */
  ghost function ReachSet(edges: Adjacency, allowed: set<nat>, s: nat): set<nat>
  {
    set t | t in allowed && Reaches(edges, allowed, s, t)
  }

  /** No adjacency list of a member of `r` leads to a vertex of `allowed` outside `r`. */
  ghost predicate ClosedIn(edges: Adjacency, allowed: set<nat>, r: set<nat>)
  {
    forall u, v :: u in r && u in edges && v in edges[u] && v in allowed ==> v in r
  }

  lemma ReachesSelf(edges: Adjacency, allowed: set<nat>, s: nat)
    requires s in allowed
    ensures Reaches(edges, allowed, s, s)
  {
    assert IsWalk(edges, allowed, [s]);
  }

  /** A walk to `u` extends along an adjacency list of `u`. */
  lemma ReachesStep(edges: Adjacency, allowed: set<nat>, s: nat, u: nat, v: nat)
    requires Reaches(edges, allowed, s, u)
    requires u in edges && v in edges[u] && v in allowed
    ensures Reaches(edges, allowed, s, v)
  {
    var w :| IsWalk(edges, allowed, w) && w[0] == s && w[|w| - 1] == u;
    var w' := w + [v];
    forall k | 0 <= k < |w'| - 1 ensures w'[k] in edges && w'[k + 1] in edges[w'[k]] {
      if k < |w| - 1 {
        assert w'[k] == w[k] && w'[k + 1] == w[k + 1];
      }
    }
    assert IsWalk(edges, allowed, w');
  }

  lemma {:induction false} WalkStaysIn(edges: Adjacency, allowed: set<nat>, r: set<nat>, w: seq<nat>, k: nat)
    requires IsWalk(edges, allowed, w) && w[0] in r && ClosedIn(edges, allowed, r)
    requires k < |w|
    ensures w[k] in r
  {
    if k > 0 {
      WalkStaysIn(edges, allowed, r, w, k - 1);
    }
  }

  /** A set holding `s` that no adjacency list leaves (inside `allowed`) holds everything `s` reaches. */
  lemma ClosedContainsReach(edges: Adjacency, allowed: set<nat>, r: set<nat>, s: nat)
    requires s in r && ClosedIn(edges, allowed, r)
    ensures ReachSet(edges, allowed, s) <= r
  {
    forall t | t in ReachSet(edges, allowed, s) ensures t in r {
      var w :| IsWalk(edges, allowed, w) && w[0] == s && w[|w| - 1] == t;
      WalkStaysIn(edges, allowed, r, w, |w| - 1);
    }
  }

  /** Every vertex of `allowed` outside `removed` that is listed next to `u` is still pending. */
  ghost predicate Scanned(edges: Adjacency, allowed: set<nat>, pending: set<nat>, u: nat)
    requires u in edges
  {
    forall v :: v in edges[u] && v in allowed ==> v !in pending
  }

  /** The vertices of `allowed` already removed and no longer on the stack have been scanned. */
  ghost predicate ScannedOffStack(edges: Adjacency, allowed: set<nat>, pending: set<nat>, stack: seq<nat>)
    requires allowed <= edges.Keys
  {
    forall u :: u in allowed && u !in pending && u !in stack ==> Scanned(edges, allowed, pending, u)
  }

  /** Scanning the popped vertex and pushing what it removed keeps every removed vertex off the stack scanned. */
  lemma ScannedAfterPop(edges: Adjacency, all: set<nat>, before: set<nat>, after: set<nat>,
                        rest: seq<nat>, cur: nat, pushed: seq<nat>)
    requires all <= edges.Keys && after <= before && cur in all
    requires ScannedOffStack(edges, all, before, rest + [cur])
    requires after == before - Elements(edges[cur])
    requires forall v :: v in pushed <==> v in before && v in edges[cur]
    ensures ScannedOffStack(edges, all, after, rest + pushed)
  {
    forall u | u in all && u !in after && u !in rest + pushed ensures Scanned(edges, all, after, u) {
      if u != cur {
        assert u !in before;
        assert u !in rest + [cur];
      }
    }
  }

  /** After a pop and a scan, everything on the stack is still a removed vertex of `all`. */
  lemma StackRemoved(all: set<nat>, before: set<nat>, after: set<nat>, stack: seq<nat>, pushed: seq<nat>)
    requires |stack| > 0 && before <= all && after <= before
    requires forall v :: v in stack ==> v in all && v !in before
    requires forall v :: v in pushed ==> v in before && v !in after
    ensures forall v :: v in stack[..|stack| - 1] + pushed ==> v in all && v !in after
  {
    forall v | v in stack[..|stack| - 1] + pushed ensures v in all && v !in after {
      if v !in pushed {
        assert v in stack;
      }
    }
  }

  /** Popping then re-appending the top gives the stack back; stated apart because the sequence identity is costly inside a larger proof. */
  lemma PopLast(s: seq<nat>)
    requires |s| > 0
    ensures s[..|s| - 1] + [s[|s| - 1]] == s
  {
  }

  /** Removing more vertices from `before` adds their number to what was removed from `all`. */
  lemma RemovedGrows(all: set<nat>, before: set<nat>, after: set<nat>)
    requires after <= before <= all
    ensures |all - after| == |all - before| + (|before| - |after|)
  {
    assert all - after == (all - before) + (before - after);
    assert (all - before) !! (before - after);
    assert |before - after| == |before| - |after|;
  }

  /**
   The state of the stack traversal from `seed` over the vertices `all`: the
   removed vertices are reachable from `seed`, number `size`, include everything on
   the stack, and those off the stack have been scanned.
   */
  ghost predicate Frontier(edges: Adjacency, all: set<nat>, seed: nat, pending: set<nat>, stack: seq<nat>, size: nat)
  {
    && all <= edges.Keys && pending <= all && seed in all && seed !in pending
    && size == |all - pending|
    && (forall v :: v in stack ==> v in all && v !in pending)
    && (forall v :: v in all && v !in pending ==> Reaches(edges, all, seed, v))
    && ScannedOffStack(edges, all, pending, stack)
  }

  lemma FrontierStart(edges: Adjacency, all: set<nat>, seed: nat)
    requires all <= edges.Keys && seed in all
    ensures Frontier(edges, all, seed, all - {seed}, [seed], 1)
  {
    assert all - (all - {seed}) == {seed};
    ReachesSelf(edges, all, seed);
  }

  /** Popping the top of the stack, scanning it and pushing what it removed keeps the traversal state. */
  lemma FrontierStep(edges: Adjacency, all: set<nat>, seed: nat, before: set<nat>, after: set<nat>,
                     stack: seq<nat>, pushed: seq<nat>, count: nat, size: nat)
    requires Frontier(edges, all, seed, before, stack, size) && stack != []
    requires stack[|stack| - 1] in edges
    requires after == before - Elements(edges[stack[|stack| - 1]])
    requires forall v :: v in pushed <==> v in before && v in edges[stack[|stack| - 1]]
    requires |pushed| == count == |before| - |after|
    ensures Frontier(edges, all, seed, after, stack[..|stack| - 1] + pushed, size + count)
  {
    var cur := stack[|stack| - 1];
    var rest := stack[..|stack| - 1];
    RemovedGrows(all, before, after);
    forall v | v in all && v !in after ensures Reaches(edges, all, seed, v) {
      if v in before {
        ReachesStep(edges, all, seed, cur, v);
      }
    }
    PopLast(stack);
    StackRemoved(all, before, after, stack, pushed);
    ScannedAfterPop(edges, all, before, after, rest, cur, pushed);
  }

  /** Once the stack is empty, the removed vertices are exactly those reachable from `seed`. */
  lemma FrontierEnd(edges: Adjacency, all: set<nat>, seed: nat, pending: set<nat>, size: nat)
    requires Frontier(edges, all, seed, pending, [], size)
    ensures pending == all - ReachSet(edges, all, seed)
    ensures size == |ReachSet(edges, all, seed)| >= 1
  {
    ReachesSelf(edges, all, seed);
    ClosedContainsReach(edges, all, all - pending, seed);
    assert all - pending == ReachSet(edges, all, seed);
  }

  /**
   The graph being explored: the vertices not yet assigned to a component
   (`sommets`, which the exploration empties) and the adjacency lists (`aretes`).
   */
  class Graph {
    var pending: set<nat>
    const edges: Adjacency

    /** Every pending vertex has an adjacency list. */
    ghost predicate Valid()
      reads this
    {
      pending <= edges.Keys
    }

    constructor(vertices: set<nat>, edges: Adjacency)
      requires vertices <= edges.Keys
      ensures Valid()
      ensures this.pending == vertices && this.edges == edges
    {
      this.pending := vertices;
      this.edges := edges;
    }

    /**
     `explorer_composante_connexe`: removes from the pending vertices exactly those
     reachable from `seed` through pending vertices, and returns how many.
     */
    method Explore(seed: nat) returns (size: nat)
      requires Valid() && seed in pending
      modifies this
      ensures Valid()
      ensures pending == old(pending) - ReachSet(edges, old(pending), seed)
      ensures size == |ReachSet(edges, old(pending), seed)| >= 1
    {
      ghost var all := pending;
      var stack := [seed];
      pending := pending - {seed};
      size := 1;
      FrontierStart(edges, all, seed);
      while stack != []
        invariant Frontier(edges, all, seed, pending, stack, size)
        decreases |pending| + |stack|
      {
        var cur := stack[|stack| - 1];
        ghost var before := pending;
        var pushed, count := ScanNeighbours(cur);
        FrontierStep(edges, all, seed, before, pending, stack, pushed, count, size);
        stack := stack[..|stack| - 1] + pushed;
        size := size + count;
      }
      FrontierEnd(edges, all, seed, pending, size);
    }

    /**
     The inner loop of `explorer_composante_connexe`: every vertex listed next to
     `cur` that is still pending is removed, pushed and counted.
     */
    method ScanNeighbours(cur: nat) returns (pushed: seq<nat>, count: nat)
      requires cur in edges
      modifies this
      ensures pending == old(pending) - Elements(edges[cur])
      ensures forall v :: v in pushed <==> v in old(pending) && v in edges[cur]
      ensures |pushed| == count == |old(pending)| - |pending|
    {
      pushed, count := [], 0;
      var nbrs := edges[cur];
      ghost var start := pending;
      for m := 0 to |nbrs|
        invariant pending == start - Elements(nbrs[..m])
        invariant forall v :: v in pushed <==> v in start && v in nbrs[..m]
        invariant |pushed| == count && |start| == |pending| + count
      {
        var v := nbrs[m];
        PrefixGrows(nbrs, m);
        ElementsSnoc(nbrs[..m], v);
        if v in pending {
          pending := pending - {v};
          pushed := pushed + [v];
          count := count + 1;
        }
      }
      assert nbrs[..|nbrs|] == nbrs;
    }
  }
}
