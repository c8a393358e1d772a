# Route planning core of Project_Aviasales, in Dafny

This project models the route-finding core of the Aviasales console
application. The core does three things:

- It builds a dense weight matrix over the airports from the route list. There is one matrix for kilometres and one for price.
- It runs Floyd–Warshall on each matrix, in place. The run also records a parent table and one witness path for every connected ordered pair of airports.
- It reports the shortest and the cheapest route between two chosen airports, or lists every connected pair.

The repository also holds an older, integer-only copy of the algorithm, `PathFindingService`. It keys each row of its result by the letters `A` to `I`. The `Route` entity, whose kilometre and price fields the graph builder reads, is modelled too.

The files:

- `floyd_warshall.dfy` (module `FloydWarshall`) is the textbook algorithm as a pure specification over `seq<seq<int>>`. One round through an intermediate node is `Relax`, the first `m` rounds are `Rounds`, and the full run is `Shortest`. Walks and their weights are defined here too. The file proves:
  - the triangle inequality;
  - that no entry ever increases;
  - optimality against every walk;
  - idempotence;
  - the weight of a spliced path.
- `grid.dfy` (module `Grid`) connects `array2` contents to nested sequences.
- `path_tables.dfy` (module `PathTables`) holds the three tables that `applyFloydWarshall` carries through the rounds: distances, parents and witness paths. It defines one round of updates on them. The invariant kept through every round: each finite distance is the weight of its stored path, which is a walk between the two airports, and the parent is that path's second-to-last node.
- `route.dfy` (module `Entities`) is the `Route` class.
- `route_service.dfy` (module `RouteService`) holds the operations of `RouteService`:
  - building the graph;
  - initialising the parent table and the paths;
  - the in-place relaxation over arrays, proved equal to the specification;
  - the query between two airports;
  - the listing of all routes.
- `path_finding_service.dfy` (module `PathFindingService`) holds the integer-only algorithm with Java's 32-bit `int` addition, the letter-keyed result, and the worked five-airport example from its documentation comment.

Data is modelled as follows:

- Airports are given as the sequence of their ids, in list order. An airport's position in that list is its matrix index.
- Routes are given as `RouteRecord` values: the fields a `Route` holds when the graph is built.
- Weights are unbounded integers. `INF` is `Integer.MAX_VALUE / 2 = 1073741823`, the constant of `RouteService`.

Quirks of the code that the model keeps:

- `makeGraph` takes the *first* route in list order between two airports, not the cheapest one.
- With an empty route list, `makeGraph` never enters its inner loop, so off-diagonal cells keep Java's default 0. As a result every pair of different airports is reported as connected, at weight 0 (`EmptyRoutesConnectEverything`).
- The diagonal's witness path is `[i, i]`, not empty.
- No route records are reconstructed from index paths. The reports carry the index path, as the code prints it.

## Model

| member | source | states |
|---|---|---|
| FloydWarshall.RelaxKeepsPivot | src/main/java/services/RouteService.java:164-182 | when the pivot's diagonal entry is non-negative, a round through the pivot leaves its row and column unchanged, so the in-place update reads the same values as the textbook round |
| FloydWarshall.RelaxBounds | src/main/java/services/RouteService.java:169-171 | a round only replaces an entry by a strictly smaller sum, so no entry increases and non-negative entries stay non-negative |
| FloydWarshall.RelaxTriangle | src/main/java/services/RouteService.java:166-180 | after the round through `m`, every pair obeys the triangle inequality through `m`, and triangle inequalities that already held are kept |
| FloydWarshall.RoundsInvariant | src/main/java/services/RouteService.java:166-180 | after rounds `0..m-1` the matrix is non-negative, below the input, and obeys the triangle inequality through every node below `m` |
| FloydWarshall.RoundsBounded | src/main/java/services/RouteService.java:166-180 | entries bounded by a sentinel in the input stay within `[0, sentinel]` after any number of rounds |
| FloydWarshall.ShortestTriangle | src/main/java/services/RouteService.java:164-182 | after all rounds, `d[j][k] <= d[j][m] + d[m][k]` for all `m, j, k`, and no entry exceeds the direct weight |
| FloydWarshall.ShortestDiagonal | src/main/java/services/RouteService.java:164-182 | a zero diagonal stays zero |
| FloydWarshall.ShortestOptimal | src/main/java/services/RouteService.java:164-182 | every computed distance is at most the weight of every walk between the two nodes in the input matrix |
| FloydWarshall.ShortestIdempotent | src/main/java/services/RouteService.java:164-182 | running the algorithm on its own output changes nothing |
| FloydWarshall.SpliceWeight | src/main/java/services/RouteService.java:173-177 | dropping the last node of the path `j -> m` and appending the path `m -> k` gives a walk whose weight is the sum of the two weights |
| PathTables.InitialConsistent | src/main/java/services/RouteService.java:192-211 | the initial tables satisfy the invariant: a finite cell has the one-hop path `[i, j]` of the cell's own weight with parent `i`; an `INF` cell has no path and parent `-1`, or `i` on the diagonal |
| PathTables.StepKeepsPivot | src/main/java/services/RouteService.java:169-177 | a round leaves the pivot's row and column unchanged in all three tables |
| PathTables.StepConsistent | src/main/java/services/RouteService.java:169-177 | an improving pair always finds a non-empty path `j -> m` to splice, and the invariant survives the round: the new path is a walk, its weight is the new distance, and its parent is the copied `parent[m][k]` |
| PathTables.Solve | src/main/java/services/RouteService.java:164-182 | after any number of rounds the tables keep the invariant, and their distances are the textbook rounds' |
| PathTables.ShortestAchieved | src/main/java/services/RouteService.java:164-182 | after all rounds every finite distance is the weight of its stored walk, and a distance is below `INF` exactly when some walk weighs less than `INF` |
| Entities.Route.constructor | src/main/java/entities/Route.java:38-45 | the six-argument constructor stores all six values unchanged |
| Entities.Route.WithoutId | src/main/java/entities/Route.java:47-53 | the five-argument constructor stores five values and leaves the id at 0 |
| Entities.Route.SetId | src/main/java/entities/Route.java:69-71 | sets the id and changes no other field |
| Entities.Route.SetIdFrom | src/main/java/entities/Route.java:79-81 | sets the origin airport and changes no other field |
| Entities.Route.SetIdTo | src/main/java/entities/Route.java:89-91 | sets the destination airport and changes no other field |
| Entities.Route.SetAirlineId | src/main/java/entities/Route.java:99-101 | sets the airline and changes no other field |
| Entities.Route.SetKm | src/main/java/entities/Route.java:109-111 | sets the distance and changes no other field |
| Entities.Route.SetPrice | src/main/java/entities/Route.java:119-121 | sets the price and changes no other field |
| RouteService.FirstMatch | src/main/java/services/RouteService.java:126-133 | the route chosen for a pair is the first route in list order from the row's airport to the column's airport; when none exists, nothing is chosen |
| RouteService.MakeGraph | src/main/java/services/RouteService.java:113-138 | the fresh `n x n` array holds the direct-weight matrix cell for cell |
| RouteService.MakeKmGraph | src/main/java/services/RouteService.java:105-107 | the graph weighted by kilometres |
| RouteService.MakePriceGraph | src/main/java/services/RouteService.java:109-111 | the graph weighted by price |
| RouteService.DirectMatrixCells | src/main/java/services/RouteService.java:113-138 | the diagonal is 0; an off-diagonal cell is the selected weight of the first matching route; with no match it is `INF`, or 0 when the route list is empty |
| RouteService.DirectMatrixWithin | src/main/java/services/RouteService.java:113-138 | route weights within `[0, INF]` give a matrix within `[0, INF]` |
| RouteService.DeclaredKmFit | src/main/java/entities/Route.java:27-29 | routes within their declared ranges have kilometre weights within `[0, INF]` |
| RouteService.InitializeParentArray | src/main/java/services/RouteService.java:192-211 | the fresh parent table and path table hold the initial tables of the given graph |
| RouteService.InitializeRow | src/main/java/services/RouteService.java:199-208 | row `i` of both the parent table and the path table becomes row `i` of the initial tables of the graph, and every other row stays unchanged |
| RouteService.ApplyFloydWarshall | src/main/java/services/RouteService.java:164-182 | the in-place triple loop leaves exactly the tables of the specified rounds; they are consistent with the input graph; no entry increased; the triangle inequality holds for every triple |
| RouteService.RelaxThrough | src/main/java/services/RouteService.java:167-180 | one pass of the outer loop turns the three arrays into the tables after that round |
| RouteService.RelaxPair | src/main/java/services/RouteService.java:169-177 | one cell update extends the row-major sweep of all three arrays by one cell |
| RouteService.SolvedTables | src/main/java/services/RouteService.java:164-182 | arrays holding the final tables are consistent with the input, below it, and obey the triangle inequality |
| RouteService.SolvedFor | src/main/java/services/RouteService.java:164-211 | the final tables for a matrix are consistent with it and hold the textbook shortest distances |
| RouteService.ShortestRoutes | src/main/java/services/RouteService.java:274-289 | building, initialising and relaxing one metric's graph leaves arrays that hold the final tables of that metric's direct-weight matrix |
| RouteService.DecideSound | src/main/java/services/RouteService.java:291-310 | a reported route is a walk from start to end whose weight is the reported total, below `INF`, and no walk is lighter; "no available path" is reported exactly when start equals end or no walk weighs less than `INF` |
| RouteService.ReportFor | src/main/java/services/RouteService.java:291-300 | the report read off one metric's relaxed arrays is the reporting rule applied to the final tables, and it is sound |
| RouteService.PrintRouteBetweenAirports | src/main/java/services/RouteService.java:271-311 | distinct positions, one of them out of range, fail on indexing; otherwise the distance and price reports each follow the reporting rule and are sound for their metric |
| RouteService.EmptyRoutesConnectEverything | src/main/java/services/RouteService.java:123-134 | with no routes, every two different airports are reported as connected, at weight 0 |
| RouteService.PrintAllRoutes | src/main/java/services/RouteService.java:79-94 | lists exactly the pairs of different airports whose distance is below `INF`, each with its stored path and distance, in row-major order |
| RouteService.PrintAllRoutesBy | src/main/java/services/RouteService.java:49-77 | every listed pair is joined by an optimal walk of the listed weight; every pair of different airports joined by a walk below `INF` is listed; the order is row-major |
| PathFindingService.Add32 | src/main/java/Services/PathFindingService.java:29-30 | Java `int` addition: the result is a 32-bit value congruent to the exact sum, and equals it when the sum fits |
| PathFindingService.FloydWarshall | src/main/java/Services/PathFindingService.java:22-34 | with entries in `[0, inf]` and `inf + inf` fitting in an `int`, the in-place loop leaves exactly the textbook shortest distances; entries stay non-negative and never increase; the triangle inequality holds for every triple |
| PathFindingService.RelaxRound | src/main/java/Services/PathFindingService.java:27-32 | one pass of the `k` loop leaves the textbook round through `k`, although cells are updated in place as the pass goes |
| PathFindingService.LettersDistinct | src/main/java/Services/PathFindingService.java:37 | no two locations share a letter |
| PathFindingService.ShortestPath | src/main/java/Services/PathFindingService.java:36-49 | relaxes the caller's matrix in place; fails exactly when there are more than nine locations; otherwise the result has one row per location letter, and each row maps a column's letter to the column's distance exactly when that distance is not `inf` |
| PathFindingService.LetterRows | src/main/java/Services/PathFindingService.java:40-47 | the map has exactly the first `n` letters as keys, each bound to that row's map |
| PathFindingService.LetterRow | src/main/java/Services/PathFindingService.java:41-45 | a row's map holds exactly the columns whose entry is not `inf`, keyed by letter, with their entries |
| PathFindingService.KeptExactlyReachable | src/main/java/Services/PathFindingService.java:43-44 | a letter is kept in a row exactly when some walk in the original matrix leads there at a weight below `inf` |
| PathFindingService.Sample | src/main/java/Services/PathFindingService.java:11-18 | the documented five-location example is a square matrix within the sentinel |
| PathFindingService.SampleStep | src/main/java/Services/PathFindingService.java:26-33 | each round of the documented example yields the next listed matrix |
| PathFindingService.SampleDistances | src/main/java/Services/PathFindingService.java:11-34 | the documented example's shortest distances: `A` to `C` is 5, `B` to `A` is 3, `E` to `C` is 5, and every pair is connected |

## Left out

- Database access (`getRoutes`, `getAirports`), the console menu (`start`, `showAirports`), logging and printing are left out. The model takes the airport and route lists as parameters and returns what would be printed as values: reports, listings and maps. The `INF` print in `PathFindingService.floydWarshall` is left out too.
- Airport names are left out. Paths are reported as airport indices, and the printer maps each index to a name.
- Floating point is not modelled. `RouteService` keeps weights in `double[][]` and prices as `double`; the model uses integers for both. Negative zero, NaN and rounding do not arise.
- RouteService.ShortestRoutes requires every selected weight within `[0, INF]`, because the source does not check its weights. Outside that range the Java code can throw at RouteService.java:175. For example, with no route 0→1 and a route 1→2 of weight −5, the pair (0, 2) improves in round 1 through the empty path `0 -> 1`, and `remove(-1)` fails. Inside the range, `StepConsistent` proves that every improving pair has a non-empty path to cut. The declared column ranges imply the requirement for kilometres (`DeclaredKmFit`).
- RouteService.ApplyFloydWarshall carries the same requirement, through the `Within` part of `Consistent`, for the same reason.
- RouteService.ReportFor, RouteService.PrintRouteBetweenAirports and RouteService.PrintAllRoutesBy carry the same requirement, for the same reason.
- PathFindingService.FloydWarshall requires entries within `[0, inf]` and `inf + inf` to fit in an `int`. `Add32` models the wrap-around, but the model does not describe results after a wrapped sum.
- PathFindingService.ShortestPath models the failure for more than nine locations as an outcome returned after the relaxation. In Java it is an `ArrayIndexOutOfBoundsException` partway through building the maps. The caller's matrix is relaxed in both cases.
- Java's `int[][]` and `double[][]` are arrays of row arrays, which may alias each other or have uneven lengths. The model uses square `array2` values instead.
- The nested `List<List<List<Integer>>>` of paths is modelled as an `array2<seq<int>>` that `InitializeParentArray` returns. In Java the method fills a list supplied by the caller.
- The private no-argument constructor and the private boxed-argument constructors of `Route` (Route.java:35-61) are left out. Only reflection calls them, and reflection is outside this model.
- `Route.toString` (Route.java:123-126) is left out: it formats text and plays no part in route planning.
- Main.java and `Global.INF` are not part of this model.
