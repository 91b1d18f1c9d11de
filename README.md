# Connected components of a proximity graph

`connectes.py` reads a distance threshold `d` and a list of points in the plane.
It reports the sizes of the connected components of the graph where two points
are joined when their distance is at most `d`, largest first. It works in four
steps:

- **Closeness test.** `points_sont_proches` compares squared distances.
- **Grid index.** Points are bucketed into square cells of side `d`
  (`creer_cellule_point`, `creer_grille`). The candidate neighbours of a point
  are read from the 3x3 block of cells around its own
  (`trouver_voisins_directs_potentiels`).
- **Graph construction.** `construire_graphe` keeps the candidates that pass
  the exact test, giving an adjacency map.
- **Component discovery.** `explorer_composante_connexe` runs a stack traversal
  that removes every reached point from the shared pending set `sommets` and
  counts them. `print_components_sizes` restarts it from any pending point until
  none is left, then sorts the sizes in decreasing order.

The model works on point indices `0 .. |pts| - 1` into a `seq<Point>` with
integer coordinates. The modules follow the layers:

- `Geometry` (`geometry.dfy`): points, the closeness predicate, Python's floor
  division, the cell of a point.
- `SpatialGrid` (`grid.dfy`): the grid as a `map<Cell, seq<nat>>`, built by a
  loop (`CreateGrid`), and the candidate scan (`Candidates`).
- `ProximityGraph` (`graph.dfy`): the adjacency map built by nested loops
  (`BuildGraph`, `CloseNeighbours`), and connectivity under closeness
  (`ComponentOf`).
- `Components` (`components.dfy`): a class `Graph` holding the pending set
  `sommets` as a field. Its method `Explore` is the stack traversal.
- `Sorting` (`sorting.dfy`): the final descending sort, specified by its result.
- `Driver` (`driver.dfy`): `ComponentSizes`, the loop of `print_components_sizes`,
  and what it guarantees.

Each method is proved against a reference definition:

- the grid against `GridOf`;
- the candidates against `BlockBuckets`;
- each adjacency list against `ListsClosePoints`;
- the traversal against reachability (`ReachSet`);
- the collected sizes against the true connected components.

Lemmas then connect those definitions to what the program promises. The grid
misses no close pair. Each traversal removes exactly one component. The sizes
are positive, add up to the number of points, are sorted, and do not depend on
which pending point each round starts from.

The threshold may be any non-zero integer. Python's `//` floors for either sign
of divisor, while Dafny's `/` is Euclidean, so `FloorDiv` spells out the Python
behaviour. A negative threshold `d` acts as its magnitude `|d|`:
- the closeness test compares squares with `d * d`, so the same pairs are close;
- the cells are those of side `|d|` with both axes mirrored, so close points still
  fall into neighbouring cells (`Geometry.CloseCellsNeighbour`).

Two behaviours of the code worth stating:

- **Self-pairs.** `points_sont_proches(p, p, d)` always holds, so every point is
  appended to its own adjacency list (connectes.py:74-75). No test excludes it
  (`ProximityGraph.SelfAdjacent`).
- **Zero threshold.** `x // d_min` at connectes.py:36 raises `ZeroDivisionError`
  when `d` is zero and there is at least one point. The model makes that a
  precondition, `d != 0 || |pts| == 0`, and does not model the crash. With no
  points, no cell is computed and the result is the empty list.

## Model

| member | source | states |
|---|---|---|
| Geometry.Close | connectes.py:23-29 | the definition of closeness: the squared distance is at most the squared threshold (its properties are the lemmas below) |
| Geometry.FloorDiv | connectes.py:36-37 | the definition of Python's `//` on integers, negating both operands for a negative divisor (pinned down by `Geometry.FloorDivBounds`) |
| Geometry.CellOf | connectes.py:32-38 | the definition of a point's cell: each coordinate floor-divided by the threshold |
| Geometry.CloseSymmetricReflexive | connectes.py:23-29 | closeness is symmetric in its two points, and every point is close to itself for every threshold |
| Geometry.FloorDivBounds | connectes.py:36-37 | the modelled `x // d` is the exact quotient rounded down, for a positive and for a negative divisor |
| Geometry.CloseOnEachAxis | connectes.py:28-29 | two close points differ by at most the threshold on each axis |
| Geometry.FloorDivNear | connectes.py:36-37 | coordinates at most one cell side apart fall into cells at most one apart |
| Geometry.CloseCellsNeighbour | connectes.py:32-38 | the cells of two close points are at most one apart on each axis, for either sign of the threshold |
| SpatialGrid.Lookup | connectes.py:58 | the definition of `grille.get(c, [])`: the bucket of a key, the empty list for an absent cell |
| SpatialGrid.CreateGrid | connectes.py:41-47 | the loop builds the grid obtained by appending each point index, in input order, to the bucket of its cell |
| SpatialGrid.GridOfPlacesPoints | connectes.py:44-46 | after the first n appends, the keys are exactly the cells of those n points. Every bucket is increasing and holds only points of its own cell, and every one of those points is in its cell's bucket |
| SpatialGrid.PlacePoint | connectes.py:46 | one more append keeps that shape for one more point |
| SpatialGrid.GridShape | connectes.py:41-47 | the finished grid has that shape for all the points |
| SpatialGrid.BucketMembership | connectes.py:44-46 | an index is in the bucket of a cell (an absent key gives an empty bucket) exactly when it is a point of that cell |
| SpatialGrid.BucketsPartitionPoints | connectes.py:41-47 | every point is in the bucket keyed by its own cell and in no other, and buckets keep input order |
| SpatialGrid.SubGridSize | connectes.py:44-46 | the entries of a set of buckets that each list their cell's points once number exactly the points of those cells |
| SpatialGrid.GridSizesSum | connectes.py:41-47 | the bucket sizes add up to the number of points |
| SpatialGrid.Indices | connectes.py:68 | the vertex set holds exactly the indices below n, and has n members |
| SpatialGrid.Candidates | connectes.py:50-59 | the candidates are the nine buckets at offsets {-1,0,1}², concatenated in the source's offset order |
| SpatialGrid.BlockBucketsMembers | connectes.py:57-58 | an index is a candidate exactly when it is in the bucket at one of the offsets scanned |
| SpatialGrid.OffsetsCoverBlock | connectes.py:57 | the nine offsets reach exactly the cells at most one apart on each axis |
| SpatialGrid.CandidatesAreBlockPoints | connectes.py:50-59 | the candidates are exactly the points whose cell lies in the 3x3 block around the given cell |
| SpatialGrid.CandidatesIncludeClosePoints | connectes.py:50-59 | no edge is missed: every point close to p is a candidate of p |
| SpatialGrid.LastBucketIsNew | connectes.py:57-58 | a bucket shares no point with the buckets at the earlier offsets |
| SpatialGrid.BlockBucketsDistinct | connectes.py:57-58 | the concatenated buckets hold each index at most once |
| SpatialGrid.CandidatesDistinct | connectes.py:50-59 | the candidates of a point hold each index at most once |
| ProximityGraph.BuildGraph | connectes.py:62-76 | the vertices are all the points. Every point is a key, and its list holds, once each, exactly the points close to it |
| ProximityGraph.CloseNeighbours | connectes.py:72-75 | filtering the candidates of point i with the exact test lists, once each, exactly the points close to i |
| ProximityGraph.RecordList | connectes.py:75 | storing the list of point i keeps the lists already stored for the points before it |
| ProximityGraph.AdjacencySymmetric | connectes.py:62-76 | j is listed next to i exactly when i is listed next to j |
| ProximityGraph.SelfAdjacent | connectes.py:74-75 | every point is listed among its own neighbours |
| ProximityGraph.InOwnComponent | connectes.py:79-84 | a point belongs to its own connected component |
| ProximityGraph.CloseNeighbourInComponent | connectes.py:79-84 | a point close to a member of a component is in that component |
| ProximityGraph.ConnectedSymmetric | connectes.py:79-84 | a chain of close points reversed is a chain |
| ProximityGraph.ConnectedTransitive | connectes.py:79-84 | two chains meeting end to start join up |
| ProximityGraph.ComponentOfMember | connectes.py:79-84 | every member of a component has that same component |
| Components.ReachesSelf | connectes.py:86-87 | the seed reaches itself |
| Components.ReachesStep | connectes.py:93-96 | a vertex reached from the seed extends the reach to every allowed vertex on its adjacency list |
| Components.ClosedContainsReach | connectes.py:91-97 | a set containing the seed that no adjacency list leaves contains everything the seed reaches |
| Components.ScannedAfterPop | connectes.py:92-96 | popping a vertex and scanning its list keeps every removed vertex that is off the stack fully scanned |
| Components.StackRemoved | connectes.py:92-96 | after a pop and a scan, the stack holds only removed vertices |
| Components.RemovedGrows | connectes.py:95-97 | the counter grows by exactly the number of newly removed vertices |
| Components.FrontierStart | connectes.py:86-89 | the state after removing the seed, pushing it and setting the counter to 1 satisfies the traversal invariant |
| Components.FrontierStep | connectes.py:91-97 | one round of the outer loop preserves the traversal invariant: removed vertices are reachable, counted, include the stack, and are scanned once off the stack |
| Components.FrontierEnd | connectes.py:91-98 | with an empty stack, the removed vertices are exactly those reachable from the seed, and the counter is their number, at least 1 |
| Components.Graph.constructor | connectes.py:85 | the pending set starts as the given vertices, with their adjacency lists |
| Components.Graph.Explore | connectes.py:79-98 | the pending set loses exactly the vertices reachable from the seed through pending vertices, nothing else changes, and the returned size is their number, at least 1 |
| Components.Graph.ScanNeighbours | connectes.py:93-97 | the pending neighbours of the current vertex are removed, pushed and counted. The number pushed equals the number removed |
| Sorting.InsertAdds | connectes.py:114 | inserting adds exactly one entry to the multiset of sizes and to their sum |
| Sorting.InsertKeepsOrder | connectes.py:114 | inserting into a non-increasing sequence keeps it non-increasing |
| Sorting.SortDescending | connectes.py:114 | `sort(reverse=True)` gives a non-increasing permutation of the sizes with the same sum |
| Sorting.HeadIsMax | connectes.py:114 | the first entry of a non-increasing sequence is its largest |
| Sorting.SameHead | connectes.py:114 | two non-increasing orders of the same multiset begin with the same entry |
| Sorting.SortedUnique | connectes.py:114 | a multiset has only one non-increasing order, so the sorted result is determined by the multiset |
| Sorting.SumOfPermutation | connectes.py:114 | reordering the sizes does not change their sum |
| Driver.ComponentSizes | connectes.py:101-114 | the sizes returned are non-increasing and are the sizes of a list of connected components that do not overlap and together cover every point |
| Driver.ExploredStart | connectes.py:106-108 | before the loop, nothing is listed and every point is pending |
| Driver.PendingClosed | connectes.py:110-112 | removing whole components leaves a pending set that no close pair crosses |
| Driver.WalkIsChain | connectes.py:93-96 | a walk along adjacency lists is a chain of close points |
| Driver.ChainIsWalk | connectes.py:93-96 | a chain of close points starting in a set that no close pair crosses is a walk along adjacency lists inside that set |
| Driver.ReachIsComponent | connectes.py:93-96 | in such a set, exploring from a point reaches exactly its connected component |
| Driver.ExploreStep | connectes.py:110-112 | each round removes exactly the component of the chosen pending point, adds it to the list, and strictly shrinks the pending set |
| Driver.AddToExplored | connectes.py:110-112 | listing a component found among the pending points keeps the listed sets disjoint components whose union is the complement of the pending set |
| Driver.ExploredEnd | connectes.py:110 | once no point is pending, the listed components cover every point |
| Driver.RemovingShrinks | connectes.py:110-112 | removing a set that holds a pending point strictly shrinks the pending set, so the loop ends |
| Driver.SumOfDisjoint | connectes.py:108-112 | the sizes of non-overlapping sets add up to the size of their union |
| Driver.SizesAddUp | connectes.py:108-114 | the reported sizes add up to the number of points, so each point is counted once |
| Driver.SizesPositive | connectes.py:108-114 | every reported size is at least 1 |
| Driver.EveryComponentListed | connectes.py:110-112 | the component of every point is among those listed |
| Driver.ClosePointsShareComponent | connectes.py:110-112 | two close points are counted in the same component |
| Driver.ListedOnce | connectes.py:110-112 | in a list of non-overlapping non-empty sets, each set occurs at most once |
| Driver.ListedInOther | connectes.py:110-112 | each set in one complete list of components is non-empty and occurs in any other complete list |
| Driver.ComponentListsAgree | connectes.py:110-112 | any two complete lists of components are permutations of each other |
| Driver.CardinalitiesOfPermutation | connectes.py:112-114 | permuting the components permutes their sizes |
| Driver.SizesDetermined | connectes.py:110-114 | the sorted sizes do not depend on which pending point each round starts from |

## Left out

- `load_instance` (connectes.py:12-21) and `main` (connectes.py:118-126): file reading, float parsing and the command line are I/O.
- The `print` at connectes.py:115. `Driver.ComponentSizes` returns the sorted sizes instead.
- Floating point: coordinates and the threshold are exact integers. Rounding of `float` and of `x // d` on floats is not modelled.
- The threshold of zero: the `ZeroDivisionError` raised at connectes.py:36 is excluded by the precondition `d != 0 || |pts| == 0` rather than modelled.
- Point identity: `geo.point.Point` is not part of this model, so its equality and hashing are unknown. Points are identified by their index. Two points with equal coordinates stay distinct, whereas `set(points)` and the dictionary `aretes` might merge them.
- `deque` is modelled as a sequence used as a stack: `append` appends at the end and `pop` takes the last entry.
- `next(iter(sommets))` (connectes.py:111) picks an arbitrary pending point (`:|`), not Python's hash order. `Driver.SizesDetermined` shows the result does not depend on that choice.
- `list.sort` is a library routine. `Sorting.SortDescending` models it by its result (a non-increasing permutation), built by insertion on a value, not by sorting `tailles` in place.
- ProximityGraph.BuildGraph: states which points each adjacency list holds, once each, but not their order. The order follows the candidate order of the nine buckets and is not stated.
- ProximityGraph.CloseNeighbours: states which candidates the list keeps, once each, but not that they stay in candidate order.
- Components.Graph.ScanNeighbours: states which vertices are pushed and how many, but not that they are pushed in the order of the adjacency list. The stack order decides only the traversal order, not which vertices are removed.
- Driver.ComponentSizes: the components are a ghost result. The source never builds them, only counts them.

