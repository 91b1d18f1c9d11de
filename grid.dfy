/**
 The uniform grid index: points (by index) bucketed by cell, and the candidate
 neighbours of a point, read from the 3x3 block of cells around its own.
 */
module SpatialGrid {
  import opened Geometry

  /** Cell -> indices of the points in that cell, in input order. */
  type Grid = map<Cell, seq<nat>>

  /** `grille.get(c, [])`: a cell with no key has an empty bucket. */
  function Lookup(g: Grid, c: Cell): seq<nat>
  {
    if c in g then g[c] else []
  }

  /** Strictly increasing: in input order, each index at most once. */
  predicate Increasing(s: seq<nat>)
  {
    forall a, b :: 0 <= a < b < |s| ==> s[a] < s[b]
  }

  /** The cell of every point, in input order. */
  function CellsOf(pts: seq<Point>, d: int): seq<Cell>
    requires d != 0 || |pts| == 0
  {
    seq(|pts|, k requires 0 <= k < |pts| => CellOf(pts[k], d))
  }

  /**
   The grid after the first `n` points (with cells `cells`) have been placed: a
   key for each cell holding one of them and no other; each bucket increasing and
   holding only points of its cell among the first `n`; each of those points in
   the bucket of its cell.
   */
  ghost predicate GridUpTo(cells: seq<Cell>, g: Grid, n: nat)
    requires n <= |cells|
  {
    && g.Keys == (set k | 0 <= k < n :: cells[k])
    && (forall c | c in g :: Increasing(g[c]))
    && (forall c, k | c in g && 0 <= k < |g[c]| :: g[c][k] < n && cells[g[c][k]] == c)
    && (forall j | 0 <= j < n :: cells[j] in g && j in g[cells[j]])
  }

  /** The grid once the first `n` points have been appended, in order, to the buckets of their cells. */
  function GridOf(cells: seq<Cell>, n: nat): Grid
    requires n <= |cells|
  {
    if n == 0 then map[]
    else
      var g := GridOf(cells, n - 1);
      g[cells[n - 1] := Lookup(g, cells[n - 1]) + [n - 1]]
  }

  /** What `creer_grille` builds from the points and the cell side. */
  ghost predicate IsGridOf(pts: seq<Point>, d: int, g: Grid)
    requires d != 0 || |pts| == 0
  {
    g == GridOf(CellsOf(pts, d), |pts|)
  }

  /** `creer_grille`: appends every point, in order, to the bucket of its cell. */
  method CreateGrid(pts: seq<Point>, d: int) returns (g: Grid)
    requires d != 0 || |pts| == 0
    ensures IsGridOf(pts, d, g)
  {
    ghost var cells := CellsOf(pts, d);
    g := map[];
    for i := 0 to |pts|
      invariant g == GridOf(cells, i)
    {
      var c := CellOf(pts[i], d);
      assert c == cells[i];
      g := g[c := Lookup(g, c) + [i]];
    }
  }

  /** Appending the points one by one places each exactly in its cell's bucket, buckets in input order. */
  lemma {:induction false} GridOfPlacesPoints(cells: seq<Cell>, n: nat, g: Grid)
    requires n <= |cells| && g == GridOf(cells, n)
    ensures GridUpTo(cells, g, n)
  {
    if n == 0 {
      EmptyGrid(cells);
    } else {
      var h := GridOf(cells, n - 1);
      GridOfPlacesPoints(cells, n - 1, h);
      PlacePoint(cells, h, n - 1, g);
    }
  }

  /** The grid built from the points has the shape `GridUpTo` describes. */
  lemma GridShape(pts: seq<Point>, d: int, g: Grid)
    requires d != 0 || |pts| == 0
    requires IsGridOf(pts, d, g)
    ensures GridUpTo(CellsOf(pts, d), g, |pts|)
  {
    GridOfPlacesPoints(CellsOf(pts, d), |pts|, g);
  }

  /** Before any point is placed the grid is empty. */
  lemma EmptyGrid(cells: seq<Cell>)
    ensures GridUpTo(cells, map[], 0)
  {
  }

  /** Appending point `i` to the bucket of its cell extends the grid of the first `i` points by one. */
  lemma PlacePoint(cells: seq<Cell>, g: Grid, i: nat, g': Grid)
    requires i < |cells| && GridUpTo(cells, g, i)
    requires g' == g[cells[i] := Lookup(g, cells[i]) + [i]]
    ensures GridUpTo(cells, g', i + 1)
  {
    var c := cells[i];
    PlacedBucketGrows(cells, g, i);
    assert (set k | 0 <= k < i + 1 :: cells[k]) == (set k | 0 <= k < i :: cells[k]) + {c};
    PlacedBucketsSound(cells, g, i, g');
    PlacedPointsFound(cells, g, i, g');
  }

  lemma PlacedBucketGrows(cells: seq<Cell>, g: Grid, i: nat)
    requires i < |cells| && GridUpTo(cells, g, i)
    ensures Increasing(Lookup(g, cells[i]) + [i])
  {
    var c := cells[i];
    if c in g {
      forall y | y in g[c] ensures y < i {
        var k :| 0 <= k < |g[c]| && g[c][k] == y;
      }
      IncreasingAppend(g[c], i);
    } else {
      IncreasingAppend([], i);
    }
  }

  lemma PlacedBucketsSound(cells: seq<Cell>, g: Grid, i: nat, g': Grid)
    requires i < |cells| && GridUpTo(cells, g, i)
    requires g' == g[cells[i] := Lookup(g, cells[i]) + [i]]
    ensures forall e, k | e in g' && 0 <= k < |g'[e]| :: g'[e][k] < i + 1 && cells[g'[e][k]] == e
  {
    var c := cells[i];
    forall e, k | e in g' && 0 <= k < |g'[e]| ensures g'[e][k] < i + 1 && cells[g'[e][k]] == e {
      if e != c {
        assert g'[e][k] == g[e][k];
      } else if k < |Lookup(g, c)| {
        assert c in g && g'[e][k] == g[c][k];
      }
    }
  }

  lemma PlacedPointsFound(cells: seq<Cell>, g: Grid, i: nat, g': Grid)
    requires i < |cells| && GridUpTo(cells, g, i)
    requires g' == g[cells[i] := Lookup(g, cells[i]) + [i]]
    ensures forall j | 0 <= j < i + 1 :: cells[j] in g' && j in g'[cells[j]]
  {
    var c := cells[i];
    forall j | 0 <= j < i + 1 ensures cells[j] in g' && j in g'[cells[j]] {
      if j < i && cells[j] == c {
        assert j in g[c];
      }
    }
  }

  lemma IncreasingAppend(s: seq<nat>, x: nat)
    requires Increasing(s) && forall y :: y in s ==> y < x
    ensures Increasing(s + [x])
  {
    var t := s + [x];
    forall a, b | 0 <= a < b < |t| ensures t[a] < t[b] {
      assert t[a] == s[a] && s[a] in s;
    }
  }

  /** A bucket holds exactly the points of its cell (an absent cell, none). */
  lemma BucketMembership(cells: seq<Cell>, g: Grid, e: Cell, j: nat)
    requires GridUpTo(cells, g, |cells|)
    ensures j in Lookup(g, e) <==> j < |cells| && cells[j] == e
  {
    if j in Lookup(g, e) {
      var k :| 0 <= k < |g[e]| && g[e][k] == j;
    }
    if j < |cells| && cells[j] == e {
      assert e in g && j in g[e];
    }
  }

  /** Every point sits in exactly one bucket, the one keyed by its own cell; buckets are in input order. */
  lemma BucketsPartitionPoints(pts: seq<Point>, d: int, g: Grid, i: nat)
    requires d != 0 || |pts| == 0
    requires IsGridOf(pts, d, g) && i < |pts|
    ensures CellOf(pts[i], d) in g && i in g[CellOf(pts[i], d)]
    ensures forall c :: c in g && i in g[c] ==> c == CellOf(pts[i], d)
    ensures forall c :: c in g ==> Increasing(g[c])
  {
    GridShape(pts, d, g);
    assert CellsOf(pts, d)[i] == CellOf(pts[i], d);
  }

  /** The total number of entries over all buckets. */
  ghost function TotalBucketSize(g: Grid): nat
    decreases |g|
  {
    if g == map[] then 0
    else
      var c :| c in g;
      |g[c]| + TotalBucketSize(g - {c})
  }

  /** The indices of the points whose cell is in `keys`. */
  function PointsIn(cells: seq<Cell>, keys: set<Cell>): set<nat>
  {
    set i: nat | i < |cells| && cells[i] in keys
  }

  /** The set of entries of a sequence. */
  function Elements(s: seq<nat>): set<nat>
  {
    set x | x in s
  }

  lemma ElementsSnoc(init: seq<nat>, last: nat)
    ensures Elements(init + [last]) == Elements(init) + {last}
  {
  }

  lemma LastIsNew(s: seq<nat>)
    requires Increasing(s) && s != []
    ensures s[|s| - 1] !in s[..|s| - 1]
    ensures Increasing(s[..|s| - 1])
  {
  }

  /** An increasing sequence has as many elements as it has entries. */
  lemma {:induction false} IncreasingSize(s: seq<nat>)
    requires Increasing(s)
    ensures |Elements(s)| == |s|
  {
    if s != [] {
      var init, last := s[..|s| - 1], s[|s| - 1];
      LastIsNew(s);
      IncreasingSize(init);
      assert s == init + [last];
      ElementsSnoc(init, last);
    }
  }

  /** The indices of the points in cell `c`. */
  function CellPoints(cells: seq<Cell>, c: Cell): set<nat>
  {
    set i: nat | i < |cells| && cells[i] == c
  }

  /** Buckets of a sub-map of the grid have as many entries in all as the points of its cells. */
  lemma {:induction false} SubGridSize(cells: seq<Cell>, g: Grid)
    requires forall c | c in g :: Elements(g[c]) == CellPoints(cells, c) && Increasing(g[c])
    ensures TotalBucketSize(g) == |PointsIn(cells, g.Keys)|
    decreases |g|
  {
    if g != map[] {
      var c :| c in g && TotalBucketSize(g) == |g[c]| + TotalBucketSize(g - {c});
      var rest := g - {c};
      assert rest.Keys == g.Keys - {c};
      SubGridSize(cells, rest);
      IncreasingSize(g[c]);
      assert PointsIn(cells, g.Keys) == PointsIn(cells, rest.Keys) + CellPoints(cells, c);
      assert PointsIn(cells, rest.Keys) !! CellPoints(cells, c);
    }
  }

  /** The bucket sizes of the grid add up to the number of points. */
  lemma GridSizesSum(pts: seq<Point>, d: int, g: Grid)
    requires d != 0 || |pts| == 0
    requires IsGridOf(pts, d, g)
    ensures TotalBucketSize(g) == |pts|
  {
    var cells := CellsOf(pts, d);
    GridShape(pts, d, g);
    forall c | c in g ensures Elements(g[c]) == CellPoints(cells, c) {
      forall j: nat ensures j in g[c] <==> j in CellPoints(cells, c) {
        BucketMembership(cells, g, c, j);
      }
    }
    SubGridSize(cells, g);
    assert PointsIn(cells, g.Keys) == Indices(|pts|);
  }

  /** The indices of `n` points, `{0, ..., n - 1}`. */
  function Indices(n: nat): (s: set<nat>)
    ensures forall i: nat :: i in s <==> i < n
    ensures |s| == n
  {
    if n == 0 then {} else Indices(n - 1) + {n - 1}
  }

  /** The nine offsets scanned by `trouver_voisins_directs_potentiels`, in its order. */
  const Offsets: seq<(int, int)> := [(-1, 0), (1, 0), (0, -1), (0, 1), (0, 0), (1, 1), (-1, -1), (1, -1), (-1, 1)]

  function Shift(c: Cell, o: (int, int)): Cell
  {
    Cell(c.i + o.0, c.j + o.1)
  }

  /** The buckets of the cells at the first `k` offsets around `c`, concatenated. */
  function BlockBuckets(g: Grid, c: Cell, k: nat): seq<nat>
    requires k <= |Offsets|
  {
    if k == 0 then [] else BlockBuckets(g, c, k - 1) + Lookup(g, Shift(c, Offsets[k - 1]))
  }

  /** `trouver_voisins_directs_potentiels`: the nine buckets around the point's cell, concatenated. */
  method Candidates(p: Point, g: Grid, d: int) returns (r: seq<nat>)
    requires d != 0
    ensures r == BlockBuckets(g, CellOf(p, d), |Offsets|)
  {
    r := [];
    var c := CellOf(p, d);
    for k := 0 to |Offsets|
      invariant r == BlockBuckets(g, c, k)
    {
      r := r + Lookup(g, Shift(c, Offsets[k]));
    }
  }

  lemma {:induction false} BlockBucketsMembers(g: Grid, c: Cell, k: nat)
    requires k <= |Offsets|
    ensures forall j :: j in BlockBuckets(g, c, k) <==> exists m :: 0 <= m < k && j in Lookup(g, Shift(c, Offsets[m]))
  {
    if k > 0 {
      BlockBucketsMembers(g, c, k - 1);
    }
  }

  /** The nine offsets cover exactly the 3x3 block. */
  lemma OffsetsCoverBlock(c: Cell, e: Cell)
    ensures Neighbouring(c, e) <==> exists m :: 0 <= m < |Offsets| && e == Shift(c, Offsets[m])
  {
    if Neighbouring(c, e) {
      var di, dj := e.i - c.i, e.j - c.j;
      var m := if (di, dj) == (-1, 0) then 0 else if (di, dj) == (1, 0) then 1
        else if (di, dj) == (0, -1) then 2 else if (di, dj) == (0, 1) then 3
        else if (di, dj) == (0, 0) then 4 else if (di, dj) == (1, 1) then 5
        else if (di, dj) == (-1, -1) then 6 else if (di, dj) == (1, -1) then 7 else 8;
      assert e == Shift(c, Offsets[m]);
    }
  }

  /** The candidates of a point in cell `c` are exactly the points whose cell neighbours `c`. */
  lemma CandidatesAreBlockPoints(pts: seq<Point>, d: int, g: Grid, c: Cell)
    requires d != 0 || |pts| == 0
    requires IsGridOf(pts, d, g)
    ensures forall j: nat :: j in BlockBuckets(g, c, |Offsets|) <==> j < |pts| && Neighbouring(c, CellOf(pts[j], d))
  {
    var cells := CellsOf(pts, d);
    GridShape(pts, d, g);
    BlockBucketsMembers(g, c, |Offsets|);
    forall j: nat ensures j in BlockBuckets(g, c, |Offsets|) <==> j < |pts| && Neighbouring(c, CellOf(pts[j], d)) {
      if j in BlockBuckets(g, c, |Offsets|) {
        var m :| 0 <= m < |Offsets| && j in Lookup(g, Shift(c, Offsets[m]));
        BucketMembership(cells, g, Shift(c, Offsets[m]), j);
        OffsetsCoverBlock(c, cells[j]);
      }
      if j < |pts| && Neighbouring(c, CellOf(pts[j], d)) {
        assert cells[j] == CellOf(pts[j], d);
        OffsetsCoverBlock(c, cells[j]);
        var m :| 0 <= m < |Offsets| && cells[j] == Shift(c, Offsets[m]);
        BucketMembership(cells, g, Shift(c, Offsets[m]), j);
      }
    }
  }

  /** No proximity edge is missed: every point close to `p` is among its candidates. */
  lemma CandidatesIncludeClosePoints(pts: seq<Point>, d: int, g: Grid, p: Point, j: nat)
    requires d != 0 && IsGridOf(pts, d, g)
    requires j < |pts| && Close(p, pts[j], d)
    ensures j in BlockBuckets(g, CellOf(p, d), |Offsets|)
  {
    CloseCellsNeighbour(p, pts[j], d);
    CandidatesAreBlockPoints(pts, d, g, CellOf(p, d));
  }

  /** Each index at most once. */
  predicate Distinct(s: seq<nat>)
  {
    forall a, b :: 0 <= a < b < |s| ==> s[a] != s[b]
  }

  lemma ConcatDistinct(a: seq<nat>, b: seq<nat>)
    requires Distinct(a) && Distinct(b)
    requires forall j :: j in a ==> j !in b
    ensures Distinct(a + b)
  {
    var all := a + b;
    forall s, t | 0 <= s < t < |all| ensures all[s] != all[t] {
      if t < |a| {
        assert all[s] == a[s] && all[t] == a[t];
      } else if s >= |a| {
        assert all[s] == b[s - |a|] && all[t] == b[t - |a|];
      } else {
        assert all[s] == a[s] && a[s] in a;
        assert all[t] == b[t - |a|] && all[t] in b;
      }
    }
  }

  lemma ShiftsDistinct(c: Cell, a: nat, b: nat)
    requires a < b < |Offsets|
    ensures Shift(c, Offsets[a]) != Shift(c, Offsets[b])
  {
    assert Offsets[a] != Offsets[b];
  }

  /** A bucket shares no index with the buckets at earlier offsets. */
  lemma LastBucketIsNew(cells: seq<Cell>, g: Grid, c: Cell, k: nat)
    requires GridUpTo(cells, g, |cells|) && k < |Offsets|
    ensures forall j :: j in BlockBuckets(g, c, k) ==> j !in Lookup(g, Shift(c, Offsets[k]))
  {
    BlockBucketsMembers(g, c, k);
    forall j: nat | j in BlockBuckets(g, c, k) ensures j !in Lookup(g, Shift(c, Offsets[k])) {
      var m :| 0 <= m < k && j in Lookup(g, Shift(c, Offsets[m]));
      var e1, e2 := Shift(c, Offsets[m]), Shift(c, Offsets[k]);
      ShiftsDistinct(c, m, k);
      BucketMembership(cells, g, e1, j);
      if j in Lookup(g, e2) {
        BucketMembership(cells, g, e2, j);
        assert false;
      }
    }
  }

  lemma {:induction false} BlockBucketsDistinct(cells: seq<Cell>, g: Grid, c: Cell, k: nat)
    requires GridUpTo(cells, g, |cells|) && k <= |Offsets|
    ensures Distinct(BlockBuckets(g, c, k))
  {
    if k > 0 {
      BlockBucketsDistinct(cells, g, c, k - 1);
      var e := Shift(c, Offsets[k - 1]);
      assert Increasing(Lookup(g, e)) by {
        if e in g {
          assert Increasing(g[e]);
        }
      }
      LastBucketIsNew(cells, g, c, k - 1);
      ConcatDistinct(BlockBuckets(g, c, k - 1), Lookup(g, Shift(c, Offsets[k - 1])));
    }
  }

  /** The candidates of a point hold each index at most once. */
  lemma CandidatesDistinct(pts: seq<Point>, d: int, g: Grid, c: Cell)
    requires d != 0 || |pts| == 0
    requires IsGridOf(pts, d, g)
    ensures Distinct(BlockBuckets(g, c, |Offsets|))
  {
    GridShape(pts, d, g);
    BlockBucketsDistinct(CellsOf(pts, d), g, c, |Offsets|);
  }
}
