/**
 The older, integer-only all-pairs shortest-path service. `FloydWarshall`
 relaxes a square matrix in place, using Java's 32-bit `int` addition;
 `ShortestPath` runs it on the caller's matrix and then keys each row of the
 result by the letters `A` .. `I`, keeping only the entries that differ
 from the sentinel.
 */
module PathFindingService {
  import opened Spec = FloydWarshall
  import opened Grid
  import opened PathTables

  const INT_MIN: int := -0x8000_0000
  const INT_MAX: int := 0x7fff_ffff

  /** Java's `int` addition: the exact sum wrapped into 32-bit two's
      complement. */
  function Add32(a: int, b: int): (r: int)
    ensures INT_MIN <= r <= INT_MAX
    ensures (r - (a + b)) % 0x1_0000_0000 == 0
    ensures INT_MIN <= a + b <= INT_MAX ==> r == a + b
  {
    (a + b - INT_MIN) % 0x1_0000_0000 + INT_MIN
  }

  /** Relaxes `dist` through every intermediate `k`, outermost, updating each
      entry in place as soon as the path through `k` is shorter. Since the
      entries lie in `[0, inf]` and `inf + inf` fits in an `int`, no sum
      wraps, and the result is the textbook shortest-distance matrix. */
  method FloydWarshall(dist: array2<int>, inf: int)
    requires dist.Length0 == dist.Length1
    requires Within(Cells(dist), inf) && inf + inf <= INT_MAX
    modifies dist
    ensures Holds(dist, Shortest(old(Cells(dist))))
    ensures forall i, j :: 0 <= i < dist.Length0 && 0 <= j < dist.Length0 ==> 0 <= dist[i, j] <= old(dist[i, j])
    ensures forall i, j, k :: 0 <= i < dist.Length0 && 0 <= j < dist.Length0 && 0 <= k < dist.Length0 ==>
      dist[i, j] <= dist[i, k] + dist[k, j]
  {
    ghost var g := Cells(dist);
    var v := dist.Length0;
    for k := 0 to v
      invariant Holds(dist, Rounds(g, k))
    {
      ghost var s := Rounds(g, k);
      assert Within(s, inf) && Rounds(g, k + 1) == Relax(s, k) by {
        RoundsBounded(g, k, inf);
      }
      RelaxRound(dist, k, s, inf);
    }
    ShortestHeld(dist, g);
  }

  /** The round through `k`: the pivot's row and column stay fixed during
      the round, so updating in place computes the same matrix as reading
      the round's starting values. */
  method RelaxRound(dist: array2<int>, k: nat, ghost s: Matrix, inf: int)
    requires dist.Length0 == dist.Length1 == |s| && IsSquare(s) && k < |s|
    requires Within(s, inf) && inf + inf <= INT_MAX
    requires Holds(dist, s)
    modifies dist
    ensures Holds(dist, Relax(s, k))
  {
    var v := dist.Length0;
    ghost var r := Relax(s, k);
    RelaxKeepsPivot(s, k);
    for i := 0 to v
      invariant SweptTo(dist, s, r, i, 0)
    {
      for j := 0 to v
        invariant SweptTo(dist, s, r, i, j)
      {
        assert dist[i, k] == s[i][k] && dist[k, j] == s[k][j];
        if Add32(dist[i, k], dist[k, j]) < dist[i, j] {
          dist[i, j] := Add32(dist[i, k], dist[k, j]);
        }
      }
    }
  }

  /** The row keys: location `i` is named by the `i`-th letter. */
  const LETTERS: string := "ABCDEFGHI"

  /** The outcome of `ShortestPath`: the letter-keyed rows, or the index
      failure raised when there are more locations than letters. */
  datatype Outcome = Distances(rows: map<char, map<char, int>>) | TooManyLocations

  /** `row` holds, under the letter of `j`, the entry `d[i][j]` of every
      column `j` whose entry is not `inf`, and nothing else. */
  ghost predicate RowOf(row: map<char, int>, d: Matrix, i: nat, inf: int)
    requires IsSquare(d) && i < |d| <= |LETTERS|
  {
    && (forall c :: c in row <==> exists j :: 0 <= j < |d| && LETTERS[j] == c && d[i][j] != inf)
    && (forall j :: 0 <= j < |d| && d[i][j] != inf ==> LETTERS[j] in row && row[LETTERS[j]] == d[i][j])
  }

  /** `rows` has one row per location, keyed by its letter. */
  ghost predicate Keyed(rows: map<char, map<char, int>>, d: Matrix, inf: int)
    requires IsSquare(d) && |d| <= |LETTERS|
  {
    && (forall c :: c in rows <==> exists i :: 0 <= i < |d| && LETTERS[i] == c)
    && (forall i :: 0 <= i < |d| ==> LETTERS[i] in rows && RowOf(rows[LETTERS[i]], d, i, inf))
  }

  /** No two locations share a letter. */
  lemma LettersDistinct()
    ensures forall a, b :: 0 <= a < b < |LETTERS| ==> LETTERS[a] != LETTERS[b]
  {
  }

  /** Relaxes the caller's matrix in place, then keys every row of the result
      by letter. With more than nine locations the letters run out and the
      call fails, after the matrix has been relaxed. */
  method ShortestPath(dist: array2<int>, inf: int) returns (o: Outcome)
    requires dist.Length0 == dist.Length1
    requires Within(Cells(dist), inf) && inf + inf <= INT_MAX
    modifies dist
    ensures Holds(dist, Shortest(old(Cells(dist))))
    ensures o.TooManyLocations? <==> dist.Length0 > |LETTERS|
    ensures o.Distances? ==> Keyed(o.rows, Shortest(old(Cells(dist))), inf)
  {
    FloydWarshall(dist, inf);
    if dist.Length0 > |LETTERS| {
      return TooManyLocations;
    }
    var distances := LetterRows(dist, inf);
    o := Distances(distances);
    HoldsCells(dist, Shortest(old(Cells(dist))));
  }

  /** Keys every row of `dist` by its letter. */
  method LetterRows(dist: array2<int>, inf: int) returns (distances: map<char, map<char, int>>)
    requires dist.Length0 == dist.Length1 <= |LETTERS|
    ensures Keyed(distances, Cells(dist), inf)
  {
    var n := dist.Length0;
    ghost var d := Cells(dist);
    distances := map[];
    for i := 0 to n
      invariant forall c :: c in distances <==> exists a :: 0 <= a < i && LETTERS[a] == c
      invariant forall a :: 0 <= a < i ==> LETTERS[a] in distances && RowOf(distances[LETTERS[a]], d, a, inf)
    {
      var distance := LetterRow(dist, i, inf);
      LettersDistinct();
      distances := distances[LETTERS[i] := distance];
    }
  }

  /** Row `i` of `dist`, keyed by letter, without the entries equal to `inf`. */
  method LetterRow(dist: array2<int>, i: nat, inf: int) returns (distance: map<char, int>)
    requires dist.Length0 == dist.Length1 <= |LETTERS| && i < dist.Length0
    ensures RowOf(distance, Cells(dist), i, inf)
  {
    var n := dist.Length0;
    ghost var d := Cells(dist);
    LettersDistinct();
    distance := map[];
    for j := 0 to n
      invariant forall c :: c in distance <==> exists b :: 0 <= b < j && LETTERS[b] == c && d[i][b] != inf
      invariant forall b :: 0 <= b < j && d[i][b] != inf ==> LETTERS[b] in distance && distance[LETTERS[b]] == d[i][b]
    {
      if dist[i, j] != inf {
        distance := distance[LETTERS[j] := dist[i, j]];
      }
    }
  }

  /** A letter is kept in a row exactly when some walk in the original
      matrix leads from the row's location to the letter's location at a
      weight below `inf`. */
  lemma KeptExactlyReachable(g: Matrix, inf: int, i: nat, j: nat)
    requires IsSquare(g) && Within(g, inf) && i < |g| && j < |g|
    ensures Shortest(g)[i][j] != inf <==> exists p :: IsWalk(p, |g|, i, j) && WalkWeight(g, p) < inf
  {
    ShortestAchieved(g, inf, i, j);
    ShortestTriangle(g);
    assert Shortest(g)[i][j] <= g[i][j] <= inf;
  }

  /** The sentinel chosen for the worked example below, where the
      documentation only marks missing routes; any value above every finite
      distance of the example would do. */
  const SAMPLE_INF: int := 0x3fff_ffff

  /** The worked example of five locations `A` .. `E` documented beside the
      algorithm: direct weights, `SAMPLE_INF` where no direct route exists. */
  function Sample(): (d: Matrix)
    ensures IsSquare(d) && |d| == 5 && Within(d, SAMPLE_INF)
  {
    var x := SAMPLE_INF;
    [[0, 4, x, 5, x],
     [x, 0, 1, x, 6],
     [2, x, 0, 3, x],
     [x, x, 1, 0, 2],
     [1, x, x, 4, 0]]
  }

  /** The example's matrix after each round, the last one being the
      shortest distances: `A` reaches `C` at 5 (through `B`), `B` reaches
      `A` at 3 (through `C`), `E` reaches `C` at 5, and every pair is
      connected. */
  function SampleRound(m: nat): (r: Matrix)
    requires m <= 5
    ensures IsSquare(r) && |r| == 5
  {
    var x := SAMPLE_INF;
    match m
    case 0 => Sample()
    case 1 => [[0, 4, x, 5, x], [x, 0, 1, x, 6], [2, 6, 0, 3, x], [x, x, 1, 0, 2], [1, 5, x, 4, 0]]
    case 2 => [[0, 4, 5, 5, 10], [x, 0, 1, x, 6], [2, 6, 0, 3, 12], [x, x, 1, 0, 2], [1, 5, 6, 4, 0]]
    case 3 => [[0, 4, 5, 5, 10], [3, 0, 1, 4, 6], [2, 6, 0, 3, 12], [3, 7, 1, 0, 2], [1, 5, 6, 4, 0]]
    case _ => [[0, 4, 5, 5, 7], [3, 0, 1, 4, 6], [2, 6, 0, 3, 5], [3, 7, 1, 0, 2], [1, 5, 5, 4, 0]]
  }

  /** Round `m` of the example turns `SampleRound(m)` into `SampleRound(m + 1)`. */
  lemma SampleStep(m: nat)
    requires m < 5
    ensures Relax(SampleRound(m), m) == SampleRound(m + 1)
  {
    var d, r := SampleRound(m), SampleRound(m + 1);
    forall j, k | 0 <= j < 5 && 0 <= k < 5
      ensures r[j][k] == if d[j][m] + d[m][k] < d[j][k] then d[j][m] + d[m][k] else d[j][k]
    {
      assert j == 0 || j == 1 || j == 2 || j == 3 || j == 4;
      assert k == 0 || k == 1 || k == 2 || k == 3 || k == 4;
    }
    RelaxSample(d, m, r);
  }

  /** The example's shortest distances are those of the last round. */
  lemma {:induction false} SampleDistances()
    ensures Shortest(Sample()) ==
      [[0, 4, 5, 5, 7],
       [3, 0, 1, 4, 6],
       [2, 6, 0, 3, 5],
       [3, 7, 1, 0, 2],
       [1, 5, 5, 4, 0]]
  {
    var d := Sample();
    SampleStep(0);
    SampleStep(1);
    SampleStep(2);
    SampleStep(3);
    SampleStep(4);
    assert Rounds(d, 1) == SampleRound(1);
    assert Rounds(d, 2) == SampleRound(2);
    assert Rounds(d, 3) == SampleRound(3);
    assert Rounds(d, 4) == SampleRound(4);
    assert Rounds(d, 5) == SampleRound(5);
  }

  /** One round of the worked example, checked cell by cell. */
  lemma RelaxSample(d: Matrix, m: nat, r: Matrix)
    requires IsSquare(d) && |d| == 5 && m < 5 && IsSquare(r) && |r| == 5
    requires forall j, k :: 0 <= j < 5 && 0 <= k < 5 ==>
      r[j][k] == if d[j][m] + d[m][k] < d[j][k] then d[j][m] + d[m][k] else d[j][k]
    ensures Relax(d, m) == r
  {
    var e := Relax(d, m);
    forall j | 0 <= j < 5 ensures e[j] == r[j] {
      assert |e[j]| == |r[j]|;
    }
  }
}
