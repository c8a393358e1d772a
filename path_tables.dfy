/**
 The relaxation of `RouteService.applyFloydWarshall`, which carries three
 tables through the rounds: the distance matrix, a parent (predecessor)
 table and a witness path for every ordered pair. An improvement through
 the intermediate `m` copies `parent[m][k]` and splices the stored paths
 `j -> m` and `m -> k`. Distances equal to the sentinel `inf` mean that no
 route is known.
 */
module PathTables {
  import opened FloydWarshall

  datatype Tables = Tables(dist: Matrix, parent: seq<seq<int>>, paths: seq<seq<seq<int>>>)

  /** All three tables are `n` by `n`. */
  predicate Shaped(t: Tables) {
    && IsSquare(t.dist)
    && |t.parent| == |t.dist| && |t.paths| == |t.dist|
    && forall r :: 0 <= r < |t.dist| ==> |t.parent[r]| == |t.dist| && |t.paths[r]| == |t.dist|
  }

  /** The tables before the first round: a finite entry `(i, j)` has the
      one-hop path `[i, j]` (also `[i, i]` on the diagonal) and parent `i`;
      an unreachable one has no path and parent `-1`, except on the diagonal,
      whose parent is always `i`. */
  function Initial(d: Matrix, inf: int): (t: Tables)
    requires IsSquare(d)
    ensures Shaped(t) && t.dist == d
  {
    var n := |d|;
    Tables(d,
      seq(n, i requires 0 <= i < n => seq(n, j requires 0 <= j < n =>
        if i == j then i else if d[i][j] != inf then i else -1)),
      seq(n, i requires 0 <= i < n => seq(n, j requires 0 <= j < n =>
        if d[i][j] != inf then [i, j] else [])))
  }

  /** The stored path of `(j, k)` is a walk from `j` to `k` whose weight in the
      original matrix `g` is the stored distance, and the stored parent is
      the node before `k` on it. */
  predicate Witnesses(g: Matrix, t: Tables, j: nat, k: nat)
    requires Shaped(t) && IsSquare(g) && |g| == |t.dist| && j < |g| && k < |g|
  {
    var p := t.paths[j][k];
    IsWalk(p, |g|, j, k) && WalkWeight(g, p) == t.dist[j][k] && t.parent[j][k] == p[|p| - 2]
  }

  /** The invariant the three tables keep through every round. */
  predicate Consistent(g: Matrix, t: Tables, inf: int) {
    && Shaped(t) && IsSquare(g) && |g| == |t.dist|
    && Within(t.dist, inf)
    && (forall j, k :: 0 <= j < |g| && 0 <= k < |g| ==> (t.paths[j][k] == [] <==> t.dist[j][k] == inf))
    && (forall j, k :: 0 <= j < |g| && 0 <= k < |g| && t.paths[j][k] != [] ==> Witnesses(g, t, j, k))
    && (forall j, k :: 0 <= j < |g| && 0 <= k < |g| && t.paths[j][k] == [] ==>
          t.parent[j][k] == if j == k then j else -1)
  }

  /** An improvement through `m` only ever meets a non-empty path `j -> m`. */
  predicate Splicable(t: Tables, m: nat)
    requires Shaped(t) && m < |t.dist|
  {
    forall j, k :: 0 <= j < |t.dist| && 0 <= k < |t.dist| && Improves(t.dist, m, j, k) ==> t.paths[j][m] != []
  }

  /** One round through `m`, every pair reading the tables as they stood when
      the round began. */
  function Step(t: Tables, m: nat): (r: Tables)
    requires Shaped(t) && m < |t.dist| && Splicable(t, m)
    ensures Shaped(r) && r.dist == Relax(t.dist, m)
  {
    var n := |t.dist|;
    Tables(Relax(t.dist, m),
      seq(n, j requires 0 <= j < n => seq(n, k requires 0 <= k < n =>
        if Improves(t.dist, m, j, k) then t.parent[m][k] else t.parent[j][k])),
      seq(n, j requires 0 <= j < n => seq(n, k requires 0 <= k < n =>
        if Improves(t.dist, m, j, k) then Splice(t.paths[j][m], t.paths[m][k]) else t.paths[j][k])))
  }

  /** The tables after the rounds for intermediates `0 .. m-1`; their
      distances are those of the textbook rounds. */
  function Solve(g: Matrix, t: Tables, m: nat, inf: int): (r: Tables)
    requires Consistent(g, t, inf) && m <= |t.dist|
    ensures Consistent(g, r, inf) && r.dist == Rounds(t.dist, m)
  {
    if m == 0 then t else SolveStep(g, Solve(g, t, m - 1, inf), m - 1, inf)
  }

  /** `Step`, for tables already known to be consistent. */
  function SolveStep(g: Matrix, t: Tables, m: nat, inf: int): (r: Tables)
    requires Consistent(g, t, inf) && m < |t.dist|
    ensures Consistent(g, r, inf) && r.dist == Relax(t.dist, m)
  {
    StepConsistent(g, t, m, inf);
    Step(t, m)
  }

  // ----- lemmas -----

  /** The initial tables are consistent with the matrix they are built from. */
  lemma InitialConsistent(g: Matrix, inf: int)
    requires IsSquare(g) && Within(g, inf)
    ensures Consistent(g, Initial(g, inf), inf)
  {
    var t := Initial(g, inf);
    forall j, k | 0 <= j < |g| && 0 <= k < |g| && t.paths[j][k] != []
      ensures Witnesses(g, t, j, k)
    {
      assert t.paths[j][k] == [j, k];
      assert WalkWeight(g, [j, k]) == g[j][k] + WalkWeight(g, [k]);
    }
  }

  /** A round through a pivot with a non-negative diagonal entry leaves the
      pivot's row and column unchanged in all three tables. */
  lemma StepKeepsPivot(t: Tables, m: nat)
    requires Shaped(t) && m < |t.dist| && Splicable(t, m) && t.dist[m][m] >= 0
    ensures forall a :: 0 <= a < |t.dist| ==>
      && Step(t, m).dist[a][m] == t.dist[a][m] && Step(t, m).dist[m][a] == t.dist[m][a]
      && Step(t, m).parent[a][m] == t.parent[a][m] && Step(t, m).parent[m][a] == t.parent[m][a]
      && Step(t, m).paths[a][m] == t.paths[a][m] && Step(t, m).paths[m][a] == t.paths[m][a]
  {
  }

  /** Consistency survives a round; in particular an improvement never meets
      an empty path, so the splice is always defined. */
  lemma {:induction false} StepConsistent(g: Matrix, t: Tables, m: nat, inf: int)
    requires Consistent(g, t, inf) && m < |t.dist|
    ensures Splicable(t, m)
    ensures Consistent(g, Step(t, m), inf)
  {
    var n := |g|;
    forall j, k | 0 <= j < n && 0 <= k < n && Improves(t.dist, m, j, k)
      ensures t.paths[j][m] != [] && t.paths[m][k] != []
    {
      assert t.dist[j][m] < inf && t.dist[m][k] < inf;
    }
    var r := Step(t, m);
    forall j, k | 0 <= j < n && 0 <= k < n
      ensures 0 <= r.dist[j][k] <= inf
      ensures r.paths[j][k] == [] <==> r.dist[j][k] == inf
      ensures r.paths[j][k] != [] ==> Witnesses(g, r, j, k)
      ensures r.paths[j][k] == [] ==> r.parent[j][k] == if j == k then j else -1
    {
      if Improves(t.dist, m, j, k) {
        var p, q := t.paths[j][m], t.paths[m][k];
        assert Witnesses(g, t, j, m) && Witnesses(g, t, m, k);
        SpliceWeight(g, p, q);
        var s := Splice(p, q);
        assert r.paths[j][k] == s && r.parent[j][k] == t.parent[m][k];
        assert s[0] == j && s[|s| - 1] == k && s[|s| - 2] == q[|q| - 2];
        assert r.dist[j][k] == t.dist[j][m] + t.dist[m][k] < inf;
      } else {
        assert r.dist[j][k] == t.dist[j][k] && r.paths[j][k] == t.paths[j][k] && r.parent[j][k] == t.parent[j][k];
        if r.paths[j][k] != [] {
          assert Witnesses(g, t, j, k);
        }
      }
    }
  }

  /** Every finite distance computed from `g` is the weight of a walk in `g`,
      namely the stored path, and the distance is finite exactly when some
      walk weighs less than `inf`. */
  lemma ShortestAchieved(g: Matrix, inf: int, j: nat, k: nat)
    requires IsSquare(g) && Within(g, inf) && j < |g| && k < |g|
    ensures Consistent(g, Initial(g, inf), inf)
    ensures var t := Solve(g, Initial(g, inf), |g|, inf);
      && t.dist == Shortest(g)
      && (t.dist[j][k] < inf ==> IsWalk(t.paths[j][k], |g|, j, k) && WalkWeight(g, t.paths[j][k]) == t.dist[j][k])
    ensures Shortest(g)[j][k] < inf <==> exists p :: IsWalk(p, |g|, j, k) && WalkWeight(g, p) < inf
  {
    InitialConsistent(g, inf);
    var t := Solve(g, Initial(g, inf), |g|, inf);
    assert NonNegative(g);
    if Shortest(g)[j][k] < inf {
      assert Witnesses(g, t, j, k);
    } else {
      forall p | IsWalk(p, |g|, j, k) ensures WalkWeight(g, p) >= inf {
        ShortestOptimal(g, p, j, k);
      }
    }
  }
}
