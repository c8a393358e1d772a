/**
 The textbook Floyd-Warshall relaxation on a dense square weight matrix,
 as a pure specification shared by both copies of the algorithm in the
 repository. Round `m` relaxes every ordered pair `(j, k)` through the
 intermediate node `m`, replacing an entry only when the detour is strictly
 shorter; `Shortest` runs the rounds for `m = 0, 1, ..., n-1` in that order.
 */
module FloydWarshall {
  import opened Grid

  type Matrix = seq<seq<int>>

  /** Every row has as many entries as there are rows. */
  predicate IsSquare(d: Matrix) {
    forall r :: 0 <= r < |d| ==> |d[r]| == |d|
  }

  predicate NonNegative(d: Matrix)
    requires IsSquare(d)
  {
    forall j, k :: 0 <= j < |d| && 0 <= k < |d| ==> 0 <= d[j][k]
  }

  /** Every entry lies in `[0, bound]`: a weight, or at most the sentinel. */
  predicate Within(d: Matrix, bound: int)
    requires IsSquare(d)
  {
    forall j, k :: 0 <= j < |d| && 0 <= k < |d| ==> 0 <= d[j][k] <= bound
  }

  /** Every entry of `d` is at most the corresponding entry of `e`. */
  predicate Below(d: Matrix, e: Matrix)
    requires IsSquare(d) && IsSquare(e) && |d| == |e|
  {
    forall j, k :: 0 <= j < |d| && 0 <= k < |d| ==> d[j][k] <= e[j][k]
  }

  /** Going through `m` never beats the stored entry, for any pair. */
  predicate Triangle(d: Matrix, m: nat)
    requires IsSquare(d) && m < |d|
  {
    forall j, k :: 0 <= j < |d| && 0 <= k < |d| ==> d[j][k] <= d[j][m] + d[m][k]
  }

  /** The triangle inequality through every intermediate node below `bound`. */
  predicate TriangleBelow(d: Matrix, bound: nat)
    requires IsSquare(d) && bound <= |d|
  {
    forall m :: 0 <= m < bound ==> Triangle(d, m)
  }

  /** The strict-improvement test of one relaxation step. */
  predicate Improves(d: Matrix, m: nat, j: nat, k: nat)
    requires IsSquare(d) && m < |d| && j < |d| && k < |d|
  {
    d[j][m] + d[m][k] < d[j][k]
  }

  /** One round of relaxation through the intermediate node `m`, every pair
      reading the matrix as it stood when the round began. */
  function Relax(d: Matrix, m: nat): (r: Matrix)
    requires IsSquare(d) && m < |d|
    ensures |r| == |d| && IsSquare(r)
  {
    seq(|d|, j requires 0 <= j < |d| =>
      seq(|d|, k requires 0 <= k < |d| =>
        if Improves(d, m, j, k) then d[j][m] + d[m][k] else d[j][k]))
  }

  /** The matrix after the rounds for intermediates `0 .. m-1`. */
  function Rounds(d: Matrix, m: nat): (r: Matrix)
    requires IsSquare(d) && m <= |d|
    ensures |r| == |d| && IsSquare(r)
  {
    if m == 0 then d else Relax(Rounds(d, m - 1), m - 1)
  }

  /** All-pairs shortest distances: every node has served as intermediate. */
  function Shortest(d: Matrix): (r: Matrix)
    requires IsSquare(d)
    ensures |r| == |d| && IsSquare(r)
  {
    Rounds(d, |d|)
  }

  // ----- walks over the matrix -----

  /** Every node of `p` is an index of an `n`-node matrix. */
  predicate NodesIn(p: seq<int>, n: nat) {
    forall t :: 0 <= t < |p| ==> 0 <= p[t] < n
  }

  /** `p` is a walk of at least one hop from `j` to `k`. */
  predicate IsWalk(p: seq<int>, n: nat, j: int, k: int) {
    |p| >= 2 && NodesIn(p, n) && p[0] == j && p[|p| - 1] == k
  }

  /** The sum of the matrix entries of the consecutive hops of `p`. */
  function WalkWeight(d: Matrix, p: seq<int>): int
    requires IsSquare(d) && NodesIn(p, |d|)
  {
    if |p| < 2 then 0 else d[p[0]][p[1]] + WalkWeight(d, p[1..])
  }

  /** The witness-path splice of the repository: the first path without its
      last node, followed by the second path. */
  function Splice(p: seq<int>, q: seq<int>): (r: seq<int>)
    requires |p| >= 1
    ensures |r| == |p| - 1 + |q|
  {
    p[..|p| - 1] + q
  }

  // ----- one round -----

  /** A round with a non-negative pivot leaves the pivot's row and column as
      they were, so relaxing in place reads the same values as the textbook
      round. */
  lemma RelaxKeepsPivot(d: Matrix, m: nat)
    requires IsSquare(d) && m < |d| && d[m][m] >= 0
    ensures forall a :: 0 <= a < |d| ==> Relax(d, m)[a][m] == d[a][m] && Relax(d, m)[m][a] == d[m][a]
  {
  }

  /** A round never raises an entry and keeps entries within `[0, bound]`. */
  lemma RelaxBounds(d: Matrix, m: nat)
    requires IsSquare(d) && m < |d| && NonNegative(d)
    ensures Below(Relax(d, m), d) && NonNegative(Relax(d, m))
  {
  }

  /** After round `m` the matrix obeys the triangle inequality through `m`,
      and every triangle inequality that held before still holds. */
  lemma {:induction false} RelaxTriangle(d: Matrix, m: nat)
    requires IsSquare(d) && m < |d| && NonNegative(d)
    ensures Triangle(Relax(d, m), m)
    ensures forall i :: 0 <= i < |d| && Triangle(d, i) ==> Triangle(Relax(d, m), i)
  {
    var r := Relax(d, m);
    RelaxKeepsPivot(d, m);
    forall i | 0 <= i < |d| && Triangle(d, i)
      ensures Triangle(r, i)
    {
      forall j, k | 0 <= j < |d| && 0 <= k < |d|
        ensures r[j][k] <= r[j][i] + r[i][k]
      {
        // Each of r[j][i] and r[i][k] is either unchanged or a detour
        // through m; in each case a detour through m bounds r[j][k].
        assert r[j][k] <= d[j][k] && r[j][k] <= d[j][m] + d[m][k];
        assert d[j][k] <= d[j][i] + d[i][k];
        assert d[m][k] <= d[m][i] + d[i][k];
        assert d[j][m] <= d[j][i] + d[i][m];
        assert 0 <= d[m][i] && 0 <= d[i][m];
      }
    }
  }

  // ----- all rounds -----

  /** What the first `m` rounds establish: entries only go down, stay
      non-negative, and the triangle inequality holds through every
      intermediate already used. */
  lemma RoundsInvariant(d: Matrix, m: nat)
    requires IsSquare(d) && m <= |d| && NonNegative(d)
    ensures NonNegative(Rounds(d, m)) && Below(Rounds(d, m), d)
    ensures TriangleBelow(Rounds(d, m), m)
  {
    RoundsBelow(d, m);
    RoundsTriangle(d, m);
  }

  /** Entries only go down through the rounds, and stay non-negative. */
  lemma {:induction false} RoundsBelow(d: Matrix, m: nat)
    requires IsSquare(d) && m <= |d| && NonNegative(d)
    ensures NonNegative(Rounds(d, m)) && Below(Rounds(d, m), d)
  {
    if m > 0 {
      var prev := Rounds(d, m - 1);
      RoundsBelow(d, m - 1);
      var r := Rounds(d, m);
      assert Below(r, prev) && NonNegative(r) by {
        RelaxBounds(prev, m - 1);
      }
      BelowTransitive(r, prev, d);
    }
  }

  /** The triangle inequality holds through every intermediate already used. */
  lemma {:induction false} RoundsTriangle(d: Matrix, m: nat)
    requires IsSquare(d) && m <= |d| && NonNegative(d)
    ensures TriangleBelow(Rounds(d, m), m)
  {
    if m > 0 {
      var prev := Rounds(d, m - 1);
      RoundsTriangle(d, m - 1);
      RoundsBelow(d, m - 1);
      var r := Rounds(d, m);
      assert r == Relax(prev, m - 1);
      RelaxTriangle(prev, m - 1);
      forall i | 0 <= i < m ensures Triangle(r, i) {
        if i < m - 1 {
          assert Triangle(prev, i);
        }
      }
    }
  }

  lemma BelowTransitive(a: Matrix, b: Matrix, c: Matrix)
    requires IsSquare(a) && IsSquare(b) && IsSquare(c) && |a| == |b| == |c|
    requires Below(a, b) && Below(b, c)
    ensures Below(a, c)
  {
  }

  /** Upper bounds on the input survive every round. */
  lemma {:induction false} RoundsBounded(d: Matrix, m: nat, bound: int)
    requires IsSquare(d) && m <= |d| && NonNegative(d)
    requires forall j, k :: 0 <= j < |d| && 0 <= k < |d| ==> d[j][k] <= bound
    ensures forall j, k :: 0 <= j < |d| && 0 <= k < |d| ==> 0 <= Rounds(d, m)[j][k] <= bound
  {
    RoundsInvariant(d, m);
    var r := Rounds(d, m);
    forall j, k | 0 <= j < |d| && 0 <= k < |d| ensures r[j][k] <= bound {
      assert r[j][k] <= d[j][k];
    }
  }

  /** After all rounds: the triangle inequality through every node, and no
      entry above its direct weight. */
  lemma ShortestTriangle(d: Matrix)
    requires IsSquare(d) && NonNegative(d)
    ensures NonNegative(Shortest(d)) && Below(Shortest(d), d)
    ensures forall m, j, k :: 0 <= m < |d| && 0 <= j < |d| && 0 <= k < |d| ==>
              Shortest(d)[j][k] <= Shortest(d)[j][m] + Shortest(d)[m][k]
  {
    RoundsInvariant(d, |d|);
    var r := Shortest(d);
    forall m, j, k | 0 <= m < |d| && 0 <= j < |d| && 0 <= k < |d|
      ensures r[j][k] <= r[j][m] + r[m][k]
    {
      assert Triangle(r, m);
    }
  }

  /** A zero diagonal stays zero. */
  lemma ShortestDiagonal(d: Matrix)
    requires IsSquare(d) && NonNegative(d)
    requires forall a :: 0 <= a < |d| ==> d[a][a] == 0
    ensures forall a :: 0 <= a < |d| ==> Shortest(d)[a][a] == 0
  {
    ShortestTriangle(d);
  }

  /** A matrix that obeys the triangle inequality and lies below `d` lies below
      the weight, in `d`, of every walk. */
  lemma {:induction false} BelowWalks(e: Matrix, d: Matrix, p: seq<int>, j: int, k: int)
    requires IsSquare(d) && IsSquare(e) && |e| == |d| && Below(e, d)
    requires forall m, a, b :: 0 <= m < |d| && 0 <= a < |d| && 0 <= b < |d| ==> e[a][b] <= e[a][m] + e[m][b]
    requires IsWalk(p, |d|, j, k)
    ensures e[j][k] <= WalkWeight(d, p)
    decreases |p|
  {
    if |p| > 2 {
      BelowWalks(e, d, p[1..], p[1], k);
      assert e[j][k] <= e[j][p[1]] + e[p[1]][k];
    }
  }

  /** Optimality: the computed distance from `j` to `k` is at most the weight
      of every walk from `j` to `k` in the input matrix. */
  lemma ShortestOptimal(d: Matrix, p: seq<int>, j: int, k: int)
    requires IsSquare(d) && NonNegative(d) && IsWalk(p, |d|, j, k)
    ensures Shortest(d)[j][k] <= WalkWeight(d, p)
  {
    ShortestTriangle(d);
    BelowWalks(Shortest(d), d, p, j, k);
  }

  /** A matrix that obeys the triangle inequality through `m` is left
      unchanged by round `m`. */
  lemma RelaxStable(d: Matrix, m: nat)
    requires IsSquare(d) && m < |d| && Triangle(d, m)
    ensures Relax(d, m) == d
  {
    var r := Relax(d, m);
    forall j | 0 <= j < |d| ensures r[j] == d[j] {
      assert forall k :: 0 <= k < |d| ==> r[j][k] == d[j][k];
    }
  }

  /** Rounds over a matrix that obeys every triangle inequality change nothing. */
  lemma {:induction false} RoundsStable(d: Matrix, m: nat)
    requires IsSquare(d) && m <= |d| && TriangleBelow(d, |d|)
    ensures Rounds(d, m) == d
  {
    if m > 0 {
      RoundsStable(d, m - 1);
      RelaxStable(d, m - 1);
    }
  }

  /** Running the algorithm on its own output changes nothing. */
  lemma ShortestIdempotent(d: Matrix)
    requires IsSquare(d) && NonNegative(d)
    ensures Shortest(Shortest(d)) == Shortest(d)
  {
    ShortestTriangle(d);
    RoundsStable(Shortest(d), |d|);
  }

  /** Cutting a walk at its last node and appending a walk that starts there
      adds the two weights. */
  lemma {:induction false} SpliceWeight(d: Matrix, p: seq<int>, q: seq<int>)
    requires IsSquare(d) && NodesIn(p, |d|) && NodesIn(q, |d|)
    requires |p| >= 1 && |q| >= 1 && p[|p| - 1] == q[0]
    ensures NodesIn(Splice(p, q), |d|)
    ensures WalkWeight(d, Splice(p, q)) == WalkWeight(d, p) + WalkWeight(d, q)
    decreases |p|
  {
    if |p| == 1 {
      assert Splice(p, q) == q;
    } else {
      SpliceWeight(d, p[1..], q);
      assert Splice(p, q) == [p[0]] + Splice(p[1..], q);
      assert Splice(p, q)[1..] == Splice(p[1..], q);
    }
  }

  // ----- on arrays -----

  /** An array holding the shortest distances of `g` lies below `g` and obeys
      the triangle inequality. */
  lemma ShortestHeld(dist: array2<int>, g: Matrix)
    requires IsSquare(g) && NonNegative(g) && dist.Length0 == dist.Length1 == |g|
    requires Holds(dist, Shortest(g))
    ensures forall i, j :: 0 <= i < |g| && 0 <= j < |g| ==> 0 <= dist[i, j] <= g[i][j]
    ensures forall i, j, k :: 0 <= i < |g| && 0 <= j < |g| && 0 <= k < |g| ==>
      dist[i, j] <= dist[i, k] + dist[k, j]
  {
    ghost var e := Shortest(g);
    ShortestTriangle(g);
    forall i, j, k | 0 <= i < |g| && 0 <= j < |g| && 0 <= k < |g|
      ensures dist[i, j] <= dist[i, k] + dist[k, j]
    {
      assert dist[i, j] == e[i][j] && dist[i, k] == e[i][k] && dist[k, j] == e[k][j];
    }
  }
}
