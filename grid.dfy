/**
 Bridges between two-dimensional arrays, which the algorithms update in
 place, and the nested sequences their specifications are written over.
 */
module Grid {

  /** The array holds exactly the rows of `m`. */
  ghost predicate Holds<T>(a: array2<T>, m: seq<seq<T>>)
    reads a
  {
    && a.Length0 == |m|
    && (forall x :: 0 <= x < |m| ==> |m[x]| == a.Length1)
    && forall x, y :: 0 <= x < a.Length0 && 0 <= y < a.Length1 ==> a[x, y] == m[x][y]
  }

  /** Cells before position `(j, k)` in row-major order hold `done`, the
      others still hold `todo`: a sweep over the array that has reached
      `(j, k)`. */
  ghost predicate SweptTo<T>(a: array2<T>, todo: seq<seq<T>>, done: seq<seq<T>>, j: int, k: int)
    reads a
  {
    && a.Length0 == |todo| == |done|
    && (forall x :: 0 <= x < |todo| ==> |todo[x]| == |done[x]| == a.Length1)
    && forall x, y :: 0 <= x < a.Length0 && 0 <= y < a.Length1 ==>
         a[x, y] == if x < j || (x == j && y < k) then done[x][y] else todo[x][y]
  }

  /** The contents of the array, row by row. */
  ghost function Cells<T>(a: array2<T>): (m: seq<seq<T>>)
    reads a
    ensures Holds(a, m)
  {
    seq(a.Length0, x requires 0 <= x < a.Length0 reads a =>
      seq(a.Length1, y requires 0 <= y < a.Length1 reads a => a[x, y]))
  }

  /** An array that holds `m` has `m` as its contents. */
  lemma HoldsCells<T>(a: array2<T>, m: seq<seq<T>>)
    requires Holds(a, m)
    ensures Cells(a) == m
  {
    var c := Cells(a);
    forall x | 0 <= x < |m| ensures c[x] == m[x] {
      assert |c[x]| == |m[x]|;
    }
  }

  /** A sweep passes over a cell whose old and new contents agree. */
  lemma SweptOne<T>(a: array2<T>, todo: seq<seq<T>>, done: seq<seq<T>>, j: int, k: int)
    requires SweptTo(a, todo, done, j, k)
    requires 0 <= j < a.Length0 && 0 <= k < a.Length1 && todo[j][k] == done[j][k]
    ensures SweptTo(a, todo, done, j, k + 1)
  {
  }

  /** A sweep writes the new contents of the cell it has reached. */
  method SweepWrite<T>(a: array2<T>, ghost todo: seq<seq<T>>, ghost done: seq<seq<T>>, j: int, k: int, v: T)
    requires SweptTo(a, todo, done, j, k)
    requires 0 <= j < a.Length0 && 0 <= k < a.Length1 && v == done[j][k]
    modifies a
    ensures SweptTo(a, todo, done, j, k + 1)
  {
    a[j, k] := v;
  }
}
