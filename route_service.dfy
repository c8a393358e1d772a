/**
 The route service: shortest and cheapest connections between airports.
 For one metric (kilometres or price) it builds a dense weight matrix over
 the airport list, initialises a parent table and a table of witness paths,
 and relaxes all three in place with Floyd-Warshall. A connection is
 reported only between two different airports whose distance is below the
 sentinel `INF`.

 Airports are given by their ids, in list order (index `i` of the matrix is
 `airports[i]`); routes are given as the records the database returned.
 */
module RouteService {
  import opened FloydWarshall
  import opened PathTables
  import opened Grid
  import opened Entities

  /** The sentinel for "no route known": `Integer.MAX_VALUE / 2`. */
  const INF: int := 1073741823

  /** The weight basis of one pass, the selector handed to the graph builder. */
  datatype Metric = Km | Price

  function Select(metric: Metric, r: RouteRecord): int {
    match metric
    case Km => r.km
    case Price => r.price
  }

  datatype Option<T> = None | Some(value: T)

  /** Route `r` flies from the airport with id `from` to the one with id `to`. */
  predicate Connects(r: RouteRecord, from: int, to: int) {
    r.idFrom == from && r.idTo == to
  }

  /** The position of the first route, in list order, from `from` to `to`. */
  function FirstMatch(routes: seq<RouteRecord>, from: int, to: int): (r: Option<nat>)
    ensures r.Some? ==> r.value < |routes| && Connects(routes[r.value], from, to)
    ensures r.Some? ==> forall t :: 0 <= t < r.value ==> !Connects(routes[t], from, to)
    ensures r.None? <==> forall t :: 0 <= t < |routes| ==> !Connects(routes[t], from, to)
  {
    if routes == [] then None
    else if Connects(routes[0], from, to) then Some(0)
    else match FirstMatch(routes[1..], from, to)
      case None => None
      case Some(t) => Some(t + 1)
  }

  /** The direct weight from airport `i` to airport `j`: 0 on the diagonal;
      otherwise the metric of the first matching route; with no matching
      route, `INF`, except that an empty route list leaves the cell at 0. */
  function DirectWeight(airports: seq<int>, routes: seq<RouteRecord>, metric: Metric, i: nat, j: nat): int
    requires i < |airports| && j < |airports|
  {
    if i == j then 0
    else match FirstMatch(routes, airports[i], airports[j])
      case Some(t) => Select(metric, routes[t])
      case None => if routes == [] then 0 else INF
  }

  /** The whole matrix the graph builder produces. */
  function DirectMatrix(airports: seq<int>, routes: seq<RouteRecord>, metric: Metric): (d: Matrix)
    ensures |d| == |airports| && IsSquare(d)
  {
    seq(|airports|, i requires 0 <= i < |airports| =>
      seq(|airports|, j requires 0 <= j < |airports| => DirectWeight(airports, routes, metric, i, j)))
  }

  /** Every route's weight under `metric` is a weight no larger than the sentinel. */
  predicate WeightsFit(routes: seq<RouteRecord>, metric: Metric) {
    forall t :: 0 <= t < |routes| ==> 0 <= Select(metric, routes[t]) <= INF
  }

  // ----- building the matrix -----

  /** Fills a fresh matrix cell by cell; for an off-diagonal cell it scans
      the routes in order, marking the cell `INF` at each route that does not
      match and stopping at the first that does. */
  method MakeGraph(airports: seq<int>, routes: seq<RouteRecord>, metric: Metric) returns (graph: array2<int>)
    ensures fresh(graph) && graph.Length0 == graph.Length1 == |airports|
    ensures Holds(graph, DirectMatrix(airports, routes, metric))
  {
    var n := |airports|;
    graph := new int[n, n]((_, _) => 0);
    ghost var d := DirectMatrix(airports, routes, metric);
    for i := 0 to n
      invariant forall a, b :: 0 <= a < n && 0 <= b < n ==> graph[a, b] == if a < i then d[a][b] else 0
    {
      for j := 0 to n
        invariant forall a, b :: 0 <= a < n && 0 <= b < n ==>
          graph[a, b] == if a < i || (a == i && b < j) then d[a][b] else 0
      {
        if i == j {
          graph[i, j] := 0;
        } else {
          var t := 0;
          while t < |routes|
            invariant 0 <= t <= |routes|
            invariant forall s :: 0 <= s < t ==> !Connects(routes[s], airports[i], airports[j])
            invariant graph[i, j] == if t == 0 then 0 else INF
            invariant forall a, b :: 0 <= a < n && 0 <= b < n && (a != i || b != j) ==>
              graph[a, b] == if a < i || (a == i && b < j) then d[a][b] else 0
          {
            if Connects(routes[t], airports[i], airports[j]) {
              graph[i, j] := Select(metric, routes[t]);
              assert FirstMatch(routes, airports[i], airports[j]) == Some(t);
              break;
            } else {
              graph[i, j] := INF;
            }
            t := t + 1;
          }
        }
      }
    }
  }

  method MakeKmGraph(airports: seq<int>, routes: seq<RouteRecord>) returns (graph: array2<int>)
    ensures fresh(graph)
    ensures Holds(graph, DirectMatrix(airports, routes, Km))
  {
    graph := MakeGraph(airports, routes, Km);
  }

  method MakePriceGraph(airports: seq<int>, routes: seq<RouteRecord>) returns (graph: array2<int>)
    ensures fresh(graph)
    ensures Holds(graph, DirectMatrix(airports, routes, Price))
  {
    graph := MakeGraph(airports, routes, Price);
  }

  /** The built matrix has a zero diagonal, and each off-diagonal cell is the
      weight of the first route between the two airports; with no such
      route it is `INF`, or 0 when the route list is empty. */
  lemma DirectMatrixCells(airports: seq<int>, routes: seq<RouteRecord>, metric: Metric, i: nat, j: nat)
    requires i < |airports| && j < |airports|
    ensures var d := DirectMatrix(airports, routes, metric);
      && (i == j ==> d[i][j] == 0)
      && (i != j && routes == [] ==> d[i][j] == 0)
      && (i != j && (forall t :: 0 <= t < |routes| ==> !Connects(routes[t], airports[i], airports[j])) && routes != [] ==> d[i][j] == INF)
      && (forall t :: (0 <= t < |routes| && i != j && Connects(routes[t], airports[i], airports[j])
            && forall s :: 0 <= s < t ==> !Connects(routes[s], airports[i], airports[j])) ==>
            d[i][j] == Select(metric, routes[t]))
  {
  }

  /** Route weights within the sentinel give a matrix within the sentinel. */
  lemma DirectMatrixWithin(airports: seq<int>, routes: seq<RouteRecord>, metric: Metric)
    requires WeightsFit(routes, metric)
    ensures Within(DirectMatrix(airports, routes, metric), INF)
  {
    var d := DirectMatrix(airports, routes, metric);
    forall i, j | 0 <= i < |d| && 0 <= j < |d| ensures 0 <= d[i][j] <= INF {
      var first := FirstMatch(routes, airports[i], airports[j]);
      if i != j && first.Some? {
        assert d[i][j] == Select(metric, routes[first.value]);
      }
    }
  }

  /** Routes within their declared ranges have kilometre weights within the
      sentinel. */
  lemma DeclaredKmFit(routes: seq<RouteRecord>)
    requires forall t :: 0 <= t < |routes| ==> DeclaredRanges(routes[t])
    ensures WeightsFit(routes, Km)
  {
  }

  // ----- the path and parent tables -----

  /** Creates the parent table and the table of witness paths: a cell whose
      weight is not `INF` gets the path `[i, j]` and parent `i`, any other cell
      no path and parent -1, except on the diagonal, whose parent is `i`. */
  method InitializeParentArray(graph: array2<int>) returns (parent: array2<int>, paths: array2<seq<int>>)
    requires graph.Length0 == graph.Length1
    ensures fresh(parent) && fresh(paths)
    ensures parent.Length0 == parent.Length1 == paths.Length0 == paths.Length1 == graph.Length0
    ensures Holds(parent, Initial(Cells(graph), INF).parent)
    ensures Holds(paths, Initial(Cells(graph), INF).paths)
  {
    var n := graph.Length0;
    ghost var t := Initial(Cells(graph), INF);
    parent := new int[n, n];
    paths := new seq<int>[n, n];
    for i := 0 to n
      invariant forall a, b :: 0 <= a < i && 0 <= b < n ==> parent[a, b] == t.parent[a][b] && paths[a, b] == t.paths[a][b]
    {
      parent[i, i] := i;
      InitializeRow(graph, parent, paths, i);
    }
  }

  /** Row `i` of the two tables, the body of the outer loop above. */
  method InitializeRow(graph: array2<int>, parent: array2<int>, paths: array2<seq<int>>, i: nat)
    requires graph.Length0 == graph.Length1 == parent.Length0 == parent.Length1 == paths.Length0 == paths.Length1
    requires i < graph.Length0 && graph != parent
    modifies parent, paths
    ensures forall b :: 0 <= b < graph.Length0 ==>
      parent[i, b] == Initial(Cells(graph), INF).parent[i][b] && paths[i, b] == Initial(Cells(graph), INF).paths[i][b]
    ensures forall a, b :: 0 <= a < graph.Length0 && 0 <= b < graph.Length0 && a != i ==>
      parent[a, b] == old(parent[a, b]) && paths[a, b] == old(paths[a, b])
  {
    var n := graph.Length0;
    ghost var t := Initial(Cells(graph), INF);
    for j := 0 to n
      invariant forall b :: 0 <= b < j ==> parent[i, b] == t.parent[i][b] && paths[i, b] == t.paths[i][b]
      invariant forall a, b :: 0 <= a < n && 0 <= b < n && a != i ==>
        parent[a, b] == old(parent[a, b]) && paths[a, b] == old(paths[a, b])
    {
      parent[i, j] := if i == j then i else if graph[i, j] != INF then i else -1;
      var path: seq<int> := [];
      if graph[i, j] != INF {
        path := path + [i];
        path := path + [j];
      }
      paths[i, j] := path;
    }
  }

  // ----- relaxing in place -----

  /** The three tables as values. */
  ghost function Snapshot(graph: array2<int>, parent: array2<int>, paths: array2<seq<int>>): Tables
    reads graph, parent, paths
  {
    Tables(Cells(graph), Cells(parent), Cells(paths))
  }

  ghost predicate HoldsTables(graph: array2<int>, parent: array2<int>, paths: array2<seq<int>>, t: Tables)
    reads graph, parent, paths
  {
    Holds(graph, t.dist) && Holds(parent, t.parent) && Holds(paths, t.paths)
  }

  /** Floyd-Warshall over the three tables, intermediate node outermost. A
      pair is updated only when the detour is strictly shorter: its distance
      becomes the detour's, its parent the parent of the second leg, and its
      path the first leg without its last node followed by the second leg.
      The tables must be consistent with the matrix they describe (as
      `InitializeParentArray` leaves them). */
  method ApplyFloydWarshall(graph: array2<int>, parent: array2<int>, paths: array2<seq<int>>)
    requires graph.Length0 == graph.Length1 == parent.Length0 == parent.Length1 == paths.Length0 == paths.Length1
    requires graph != parent
    requires Consistent(Cells(graph), Snapshot(graph, parent, paths), INF)
    modifies graph, parent, paths
    ensures HoldsTables(graph, parent, paths, Solve(old(Cells(graph)), old(Snapshot(graph, parent, paths)), graph.Length0, INF))
    ensures Consistent(old(Cells(graph)), Snapshot(graph, parent, paths), INF)
    ensures forall j, k :: 0 <= j < graph.Length0 && 0 <= k < graph.Length0 ==> graph[j, k] <= old(graph[j, k])
    ensures forall i, j, k :: 0 <= i < graph.Length0 && 0 <= j < graph.Length0 && 0 <= k < graph.Length0 ==>
      graph[j, k] <= graph[j, i] + graph[i, k]
  {
    ghost var g := Cells(graph);
    ghost var t0 := Snapshot(graph, parent, paths);
    var n := graph.Length0;
    for i := 0 to n
      invariant HoldsTables(graph, parent, paths, Solve(g, t0, i, INF))
    {
      ghost var s := Solve(g, t0, i, INF);
      assert Shaped(s) && |s.dist| == n && Splicable(s, i) && s.dist[i][i] >= 0
        && Solve(g, t0, i + 1, INF) == Step(s, i) by {
        StepConsistent(g, s, i, INF);
      }
      RelaxThrough(graph, parent, paths, i, s);
    }
    assert |g| == n && Consistent(g, t0, INF) && t0.dist == g;
    SolvedTables(graph, parent, paths, g, t0);
  }

  /** What the finished relaxation promises about the arrays: consistency
      with the original matrix, no entry raised, and the triangle
      inequality through every node. */
  lemma SolvedTables(graph: array2<int>, parent: array2<int>, paths: array2<seq<int>>, g: Matrix, t0: Tables)
    requires graph.Length0 == graph.Length1 == |g|
    requires Consistent(g, t0, INF) && t0.dist == g
    requires HoldsTables(graph, parent, paths, Solve(g, t0, |g|, INF))
    ensures Consistent(g, Snapshot(graph, parent, paths), INF)
    ensures forall j, k :: 0 <= j < |g| && 0 <= k < |g| ==> graph[j, k] <= g[j][k]
    ensures forall i, j, k :: 0 <= i < |g| && 0 <= j < |g| && 0 <= k < |g| ==>
      graph[j, k] <= graph[j, i] + graph[i, k]
  {
    var r := Solve(g, t0, |g|, INF);
    SnapshotOf(graph, parent, paths, r);
    assert NonNegative(g) && Holds(graph, Shortest(g));
    ShortestHeld(graph, g);
  }

  /** Arrays that hold the tables `t` have `t` as their snapshot. */
  lemma SnapshotOf(graph: array2<int>, parent: array2<int>, paths: array2<seq<int>>, t: Tables)
    requires HoldsTables(graph, parent, paths, t)
    ensures Snapshot(graph, parent, paths) == t
  {
    HoldsCells(graph, t.dist);
    HoldsCells(parent, t.parent);
    HoldsCells(paths, t.paths);
  }

  /** One round, through the intermediate node `i`, over all pairs in
      row-major order. */
  method RelaxThrough(graph: array2<int>, parent: array2<int>, paths: array2<seq<int>>, i: nat, ghost s: Tables)
    requires graph.Length0 == graph.Length1 == parent.Length0 == parent.Length1 == paths.Length0 == paths.Length1
    requires graph != parent
    requires Shaped(s) && i < |s.dist| && Splicable(s, i) && s.dist[i][i] >= 0
    requires HoldsTables(graph, parent, paths, s)
    modifies graph, parent, paths
    ensures HoldsTables(graph, parent, paths, Step(s, i))
  {
    var n := graph.Length0;
    ghost var next := Step(s, i);
    StepKeepsPivot(s, i);
    for j := 0 to n
      invariant SweptTo(graph, s.dist, next.dist, j, 0)
      invariant SweptTo(parent, s.parent, next.parent, j, 0)
      invariant SweptTo(paths, s.paths, next.paths, j, 0)
    {
      for k := 0 to n
        invariant SweptTo(graph, s.dist, next.dist, j, k)
        invariant SweptTo(parent, s.parent, next.parent, j, k)
        invariant SweptTo(paths, s.paths, next.paths, j, k)
      {
        RelaxPair(graph, parent, paths, i, j, k, s);
      }
    }
  }

  /** The update of one pair `(j, k)` through `i`, the body of the innermost
      loop. */
  method RelaxPair(graph: array2<int>, parent: array2<int>, paths: array2<seq<int>>, i: nat, j: nat, k: nat, ghost s: Tables)
    requires graph.Length0 == graph.Length1 == parent.Length0 == parent.Length1 == paths.Length0 == paths.Length1
    requires graph != parent
    requires Shaped(s) && i < |s.dist| && j < |s.dist| && k < |s.dist| && Splicable(s, i) && s.dist[i][i] >= 0
    requires SweptTo(graph, s.dist, Step(s, i).dist, j, k)
    requires SweptTo(parent, s.parent, Step(s, i).parent, j, k)
    requires SweptTo(paths, s.paths, Step(s, i).paths, j, k)
    modifies graph, parent, paths
    ensures SweptTo(graph, s.dist, Step(s, i).dist, j, k + 1)
    ensures SweptTo(parent, s.parent, Step(s, i).parent, j, k + 1)
    ensures SweptTo(paths, s.paths, Step(s, i).paths, j, k + 1)
  {
    ghost var next := Step(s, i);
    StepKeepsPivot(s, i);
    assert graph[j, i] == s.dist[j][i] && graph[i, k] == s.dist[i][k] && graph[j, k] == s.dist[j][k];
    assert parent[i, k] == s.parent[i][k];
    assert paths[j, i] == s.paths[j][i] && paths[i, k] == s.paths[i][k];
    if graph[j, i] + graph[i, k] < graph[j, k] {
      assert Improves(s.dist, i, j, k);
      SweepWrite(parent, s.parent, next.parent, j, k, parent[i, k]);
      SweepWrite(graph, s.dist, next.dist, j, k, graph[j, i] + graph[i, k]);
      var newPath := paths[j, i];
      newPath := newPath[..|newPath| - 1];
      newPath := newPath + paths[i, k];
      SweepWrite(paths, s.paths, next.paths, j, k, newPath);
    } else {
      assert !Improves(s.dist, i, j, k);
      SweptOne(graph, s.dist, next.dist, j, k);
      SweptOne(parent, s.parent, next.parent, j, k);
      SweptOne(paths, s.paths, next.paths, j, k);
    }
  }

  // ----- one metric, end to end -----

  /** The tables after the relaxation, for the matrix `g`. */
  function SolvedFor(g: Matrix): (t: Tables)
    requires IsSquare(g) && Within(g, INF)
    ensures Consistent(g, t, INF) && t.dist == Shortest(g)
  {
    InitialConsistent(g, INF);
    Solve(g, Initial(g, INF), |g|, INF)
  }

  /** Builds the matrix for one metric, initialises the tables and relaxes
      them: the sequence every query runs once per metric. */
  method ShortestRoutes(airports: seq<int>, routes: seq<RouteRecord>, metric: Metric)
    returns (graph: array2<int>, parent: array2<int>, paths: array2<seq<int>>)
    requires WeightsFit(routes, metric)
    ensures fresh(graph) && fresh(parent) && fresh(paths)
    ensures graph.Length0 == graph.Length1 == paths.Length0 == paths.Length1 == |airports|
    ensures Within(DirectMatrix(airports, routes, metric), INF)
    ensures HoldsTables(graph, parent, paths, SolvedFor(DirectMatrix(airports, routes, metric)))
  {
    ghost var d := DirectMatrix(airports, routes, metric);
    DirectMatrixWithin(airports, routes, metric);
    graph := MakeGraph(airports, routes, metric);
    HoldsCells(graph, d);
    parent, paths := InitializeParentArray(graph);
    InitialConsistent(d, INF);
    SnapshotOf(graph, parent, paths, Initial(d, INF));
    ApplyFloydWarshall(graph, parent, paths);
  }

  // ----- reporting -----

  /** What a query reports for one metric: a route with its airport indices
      and total weight, or "no available path". */
  datatype Report = Found(path: seq<int>, weight: int) | NoPath

  /** A query's outcome: one report per metric, or the index failure raised
      when the two positions differ and one of them is not a position of the
      airport list. */
  datatype Query = Answered(byDistance: Report, byPrice: Report) | IndexOutOfBounds

  /** The reporting rule: a route is reported only between two different
      airports whose distance is below `INF`. */
  function Decide(t: Tables, start: int, end: int): Report
    requires Shaped(t) && (start == end || (0 <= start < |t.dist| && 0 <= end < |t.dist|))
  {
    if start != end && t.dist[start][end] < INF then Found(t.paths[start][end], t.dist[start][end]) else NoPath
  }

  /** No walk from `j` to `k` in `g` weighs less than `w`. */
  ghost predicate Optimal(g: Matrix, j: int, k: int, w: int)
    requires IsSquare(g)
  {
    forall q :: IsWalk(q, |g|, j, k) ==> w <= WalkWeight(g, q)
  }

  /** Some walk from `j` to `k` in `g` weighs less than `INF`. */
  ghost predicate Reachable(g: Matrix, j: int, k: int)
    requires IsSquare(g)
  {
    exists q :: IsWalk(q, |g|, j, k) && WalkWeight(g, q) < INF
  }

  /** What a report means for the matrix it was computed from: a reported
      route is a walk between the two airports whose weight is the reported
      total and no walk is lighter; "no available path" is reported exactly
      when the airports coincide or no walk weighs less than `INF`. */
  ghost predicate Sound(g: Matrix, start: int, end: int, r: Report)
    requires IsSquare(g)
  {
    && (r.Found? ==> start != end && IsWalk(r.path, |g|, start, end)
                     && WalkWeight(g, r.path) == r.weight < INF && Optimal(g, start, end, r.weight))
    && (r.NoPath? <==> start == end || !Reachable(g, start, end))
  }

  /** The reporting rule applied to the relaxed tables is sound. */
  lemma {:induction false} DecideSound(g: Matrix, start: int, end: int)
    requires IsSquare(g) && Within(g, INF) && (start == end || (0 <= start < |g| && 0 <= end < |g|))
    ensures Sound(g, start, end, Decide(SolvedFor(g), start, end))
  {
    if start != end {
      var t := SolvedFor(g);
      ShortestAchieved(g, INF, start, end);
      if t.dist[start][end] < INF {
        forall q | IsWalk(q, |g|, start, end) ensures t.dist[start][end] <= WalkWeight(g, q) {
          ShortestOptimal(g, q, start, end);
        }
      }
    }
  }

  /** The report for one metric, read off the relaxed tables. */
  method ReportFor(airports: seq<int>, routes: seq<RouteRecord>, metric: Metric, start: int, end: int) returns (r: Report)
    requires WeightsFit(routes, metric)
    requires start == end || (0 <= start < |airports| && 0 <= end < |airports|)
    ensures Within(DirectMatrix(airports, routes, metric), INF)
    ensures r == Decide(SolvedFor(DirectMatrix(airports, routes, metric)), start, end)
    ensures Sound(DirectMatrix(airports, routes, metric), start, end, r)
  {
    var graph, parent, paths := ShortestRoutes(airports, routes, metric);
    r := NoPath;
    if start != end && graph[start, end] < INF {
      r := Found(paths[start, end], graph[start, end]);
    }
    DecideSound(DirectMatrix(airports, routes, metric), start, end);
  }

  /** The query between the airports at positions `start` and `end`: both
      metrics are relaxed, then each is reported by the rule above. When the
      positions differ and one is out of range, indexing the matrix fails. */
  method PrintRouteBetweenAirports(start: int, end: int, airports: seq<int>, routes: seq<RouteRecord>) returns (q: Query)
    requires WeightsFit(routes, Km) && WeightsFit(routes, Price)
    ensures q.IndexOutOfBounds? <==> start != end && !(0 <= start < |airports| && 0 <= end < |airports|)
    ensures q.Answered? ==> Sound(DirectMatrix(airports, routes, Km), start, end, q.byDistance)
    ensures q.Answered? ==> Sound(DirectMatrix(airports, routes, Price), start, end, q.byPrice)
    ensures q.Answered? ==> (DirectMatrixWithinBoth(airports, routes)
      && q.byDistance == Decide(SolvedFor(DirectMatrix(airports, routes, Km)), start, end)
      && q.byPrice == Decide(SolvedFor(DirectMatrix(airports, routes, Price)), start, end))
  {
    if start != end && !(0 <= start < |airports| && 0 <= end < |airports|) {
      return IndexOutOfBounds;
    }
    var byDistance := ReportFor(airports, routes, Km, start, end);
    var byPrice := ReportFor(airports, routes, Price, start, end);
    q := Answered(byDistance, byPrice);
  }

  /** Both matrices of a query lie within the sentinel. */
  predicate DirectMatrixWithinBoth(airports: seq<int>, routes: seq<RouteRecord>) {
    Within(DirectMatrix(airports, routes, Km), INF) && Within(DirectMatrix(airports, routes, Price), INF)
  }

  /** With an empty route list the builder leaves every off-diagonal cell at
      0, so every two different airports are reported as connected, at no
      cost. */
  lemma EmptyRoutesConnectEverything(airports: seq<int>, metric: Metric, start: nat, end: nat)
    requires start < |airports| && end < |airports| && start != end
    ensures Within(DirectMatrix(airports, [], metric), INF)
    ensures Decide(SolvedFor(DirectMatrix(airports, [], metric)), start, end).Found?
    ensures Decide(SolvedFor(DirectMatrix(airports, [], metric)), start, end).weight == 0
  {
    var d := DirectMatrix(airports, [], metric);
    assert Within(d, INF);
    ShortestTriangle(d);
    assert Shortest(d)[start][end] <= d[start][end] == 0;
  }

  // ----- listing every route -----

  /** One line of the full listing: the pair, its stored path and its weight. */
  datatype Listing = Listing(from: nat, to: nat, path: seq<int>, weight: int)

  /** Row-major order of the pairs. */
  predicate Before(a: Listing, b: Listing) {
    a.from < b.from || (a.from == b.from && a.to < b.to)
  }

  /** Entry `e` shows the pair's current path and weight, and the pair passes
      the listing filter. */
  ghost predicate Shows(graph: array2<int>, paths: array2<seq<int>>, e: Listing)
    reads graph, paths
  {
    && e.from < graph.Length0 && e.to < graph.Length1 && e.from < paths.Length0 && e.to < paths.Length1
    && e.from != e.to && graph[e.from, e.to] < INF
    && e.path == paths[e.from, e.to] && e.weight == graph[e.from, e.to]
  }

  /** Lists, row by row, every pair of different airports whose distance is
      below `INF`, with its path and weight. */
  method PrintAllRoutes(graph: array2<int>, paths: array2<seq<int>>) returns (listed: seq<Listing>)
    requires graph.Length0 == graph.Length1 == paths.Length0 == paths.Length1
    ensures forall t :: 0 <= t < |listed| ==> Shows(graph, paths, listed[t])
    ensures forall a, b :: 0 <= a < graph.Length0 && 0 <= b < graph.Length0 && a != b && graph[a, b] < INF ==>
      exists t :: 0 <= t < |listed| && listed[t].from == a && listed[t].to == b
    ensures forall s, t :: 0 <= s < t < |listed| ==> Before(listed[s], listed[t])
  {
    var n := graph.Length0;
    listed := [];
    for i := 0 to n
      invariant forall t :: 0 <= t < |listed| ==> Shows(graph, paths, listed[t]) && listed[t].from < i
      invariant forall a, b :: 0 <= a < i && 0 <= b < n && a != b && graph[a, b] < INF ==>
        exists t :: 0 <= t < |listed| && listed[t].from == a && listed[t].to == b
      invariant forall s, t :: 0 <= s < t < |listed| ==> Before(listed[s], listed[t])
    {
      for j := 0 to n
        invariant forall t :: 0 <= t < |listed| ==>
          Shows(graph, paths, listed[t]) && (listed[t].from < i || (listed[t].from == i && listed[t].to < j))
        invariant forall a, b :: 0 <= a < n && 0 <= b < n && (a < i || (a == i && b < j)) && a != b && graph[a, b] < INF ==>
          exists t :: 0 <= t < |listed| && listed[t].from == a && listed[t].to == b
        invariant forall s, t :: 0 <= s < t < |listed| ==> Before(listed[s], listed[t])
      {
        if i != j && graph[i, j] < INF {
          ghost var before := listed;
          listed := listed + [Listing(i, j, paths[i, j], graph[i, j])];
          assert listed[|before|].from == i && listed[|before|].to == j;
          forall a, b | 0 <= a < n && 0 <= b < n && (a < i || (a == i && b < j)) && a != b && graph[a, b] < INF
            ensures exists t :: 0 <= t < |listed| && listed[t].from == a && listed[t].to == b
          {
            var t :| 0 <= t < |before| && before[t].from == a && before[t].to == b;
            assert listed[t] == before[t];
          }
        }
      }
    }
  }

  /** The full listing for one metric: every listed pair is joined by an
      optimal walk of the listed weight, every pair of different airports
      joined by a walk below `INF` is listed, and the order is row-major. */
  method PrintAllRoutesBy(airports: seq<int>, routes: seq<RouteRecord>, metric: Metric) returns (listed: seq<Listing>)
    requires WeightsFit(routes, metric)
    ensures forall t :: 0 <= t < |listed| ==>
      var e := listed[t];
      var g := DirectMatrix(airports, routes, metric);
      e.from != e.to && IsWalk(e.path, |g|, e.from, e.to) && WalkWeight(g, e.path) == e.weight < INF
      && Optimal(g, e.from, e.to, e.weight)
    ensures forall a, b :: (0 <= a < |airports| && 0 <= b < |airports| && a != b
      && Reachable(DirectMatrix(airports, routes, metric), a, b)) ==>
      exists t :: 0 <= t < |listed| && listed[t].from == a && listed[t].to == b
    ensures forall s, t :: 0 <= s < t < |listed| ==> Before(listed[s], listed[t])
  {
    var graph, parent, paths := ShortestRoutes(airports, routes, metric);
    listed := PrintAllRoutes(graph, paths);
    ghost var g := DirectMatrix(airports, routes, metric);
    ghost var sol := SolvedFor(g);
    forall t | 0 <= t < |listed|
      ensures var e := listed[t];
        e.from != e.to && IsWalk(e.path, |g|, e.from, e.to) && WalkWeight(g, e.path) == e.weight < INF
        && Optimal(g, e.from, e.to, e.weight)
    {
      var e := listed[t];
      assert Shows(graph, paths, e);
      DecideSound(g, e.from, e.to);
      assert Decide(sol, e.from, e.to) == Found(e.path, e.weight);
    }
    forall a, b | 0 <= a < |airports| && 0 <= b < |airports| && a != b && Reachable(g, a, b)
      ensures exists t :: 0 <= t < |listed| && listed[t].from == a && listed[t].to == b
    {
      DecideSound(g, a, b);
      assert graph[a, b] == sol.dist[a][b] < INF;
    }
  }
}
