/**
 * The 8-puzzle state as the utilities see it: nine values in row-major
 * order over a 3 x 3 grid, 0 standing for the blank.
 */
module Puzzle {

  /** The goal arrangement (1, 2, 3, 4, 5, 6, 7, 8, 0). */
  const GOAL: seq<int> := [1, 2, 3, 4, 5, 6, 7, 8, 0]

  /** A well-formed state: a permutation of 0..8. */
  ghost predicate IsState(s: seq<int>)
  {
    && |s| == 9
    && (forall i :: 0 <= i < 9 ==> 0 <= s[i] <= 8)
    && (forall i, j :: 0 <= i < j < 9 ==> s[i] != s[j])
    && (forall v :: 0 <= v <= 8 ==> v in s)
  }

  lemma GoalIsState()
    ensures IsState(GOAL)
  {
    forall v | 0 <= v <= 8 ensures v in GOAL {
      assert GOAL[if v == 0 then 8 else v - 1] == v;
    }
  }

  /** itertools_flatten: the rows of `nested` concatenated, in order. */
  function Flatten<T>(nested: seq<seq<T>>): (r: seq<T>)
    ensures forall x | x in r :: exists i :: 0 <= i < |nested| && x in nested[i]
    ensures forall i, k :: 0 <= i < |nested| && 0 <= k < |nested[i]| ==> nested[i][k] in r
  {
    if nested == [] then []
    else
      var rest := Flatten(nested[1..]);
      assert forall i :: 0 < i < |nested| ==> nested[i] == nested[1..][i - 1];
      nested[0] + rest
  }

  /** Flattening distributes over concatenation of the outer sequence. */
  lemma {:induction false} FlattenAppend<T>(a: seq<seq<T>>, b: seq<seq<T>>)
    ensures Flatten(a + b) == Flatten(a) + Flatten(b)
  {
    if a != [] {
      assert (a + b)[1..] == a[1..] + b;
      FlattenAppend(a[1..], b);
    } else {
      assert a + b == b;
    }
  }

  /** Flattening rows of three lays them out row-major: row i, column j
      lands at position 3 * i + j. */
  lemma {:induction false} FlattenRowMajor<T>(rows: seq<seq<T>>)
    requires forall i :: 0 <= i < |rows| ==> |rows[i]| == 3
    ensures |Flatten(rows)| == 3 * |rows|
    ensures forall i, j :: 0 <= i < |rows| && 0 <= j < 3 ==> Flatten(rows)[3 * i + j] == rows[i][j]
  {
    if rows != [] {
      var tail := rows[1..];
      assert forall i :: 0 <= i < |tail| ==> tail[i] == rows[i + 1];
      FlattenRowMajor(tail);
      var rest := Flatten(tail);
      assert Flatten(rows) == rows[0] + rest;
      assert |rows[0]| == 3;
      forall i, j | 0 <= i < |rows| && 0 <= j < 3
        ensures Flatten(rows)[3 * i + j] == rows[i][j]
      {
        if i > 0 {
          assert Flatten(rows)[3 * i + j] == rest[3 * (i - 1) + j];
          assert tail[i - 1] == rows[i];
        }
      }
    }
  }
}
