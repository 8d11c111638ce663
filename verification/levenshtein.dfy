/** Levenshtein distance (unit cost for insertion, deletion and
    substitution): the distance the application obtains from its
    `editdistance` dependency, defined here as a recurrence on prefixes,
    together with the dynamic-programming computation proved equal to it. */
module Levenshtein {

  function Min3(x: int, y: int, z: int): (m: int)
    ensures m <= x && m <= y && m <= z
    ensures m == x || m == y || m == z
  {
    if x <= y && x <= z then x else if y <= z then y else z
  }

  /** The edit distance between `a` and `b`: the cheapest of deleting the
      last character of `a`, inserting the last character of `b`, or
      matching/substituting the two last characters. */
  function Lev(a: string, b: string): nat
    decreases |a| + |b|
  {
    if |a| == 0 then |b|
    else if |b| == 0 then |a|
    else
      Min3(Lev(a[..|a| - 1], b) + 1,
           Lev(a, b[..|b| - 1]) + 1,
           Lev(a[..|a| - 1], b[..|b| - 1]) + (if a[|a| - 1] == b[|b| - 1] then 0 else 1))
  }

  /** A string is at distance zero from itself. */
  lemma {:induction false} LevSelf(a: string)
    ensures Lev(a, a) == 0
    decreases |a|
  {
    if |a| > 0 {
      LevSelf(a[..|a| - 1]);
    }
  }

  /** Distance zero means equal strings. */
  lemma {:induction false} LevZeroEqual(a: string, b: string)
    requires Lev(a, b) == 0
    ensures a == b
    decreases |a| + |b|
  {
    if |a| > 0 && |b| > 0 {
      var a', b' := a[..|a| - 1], b[..|b| - 1];
      assert Lev(a', b') == 0 && a[|a| - 1] == b[|b| - 1];
      LevZeroEqual(a', b');
      assert a == a' + [a[|a| - 1]] && b == b' + [b[|b| - 1]];
    }
  }

  /** Distance zero exactly for equal strings. */
  lemma {:induction false} LevZero(a: string, b: string)
    ensures Lev(a, b) == 0 <==> a == b
  {
    if a == b {
      LevSelf(a);
    } else if Lev(a, b) == 0 {
      LevZeroEqual(a, b);
    }
  }

  /** The distance never exceeds the longer length (substitute along the
      shorter string, insert or delete the rest). */
  lemma {:induction false} LevAtMostLonger(a: string, b: string)
    ensures Lev(a, b) <= if |a| >= |b| then |a| else |b|
    decreases |a| + |b|
  {
    if |a| > 0 && |b| > 0 {
      LevAtMostLonger(a[..|a| - 1], b[..|b| - 1]);
    }
  }

  /** The distance is at least the difference of the lengths. */
  lemma {:induction false} LevAtLeastLengthGap(a: string, b: string)
    ensures Lev(a, b) >= |a| - |b| && Lev(a, b) >= |b| - |a|
    decreases |a| + |b|
  {
    if |a| > 0 && |b| > 0 {
      LevAtLeastLengthGap(a[..|a| - 1], b);
      LevAtLeastLengthGap(a, b[..|b| - 1]);
      LevAtLeastLengthGap(a[..|a| - 1], b[..|b| - 1]);
    }
  }

  /** One cell of the dynamic programme: the recurrence read on prefixes. */
  lemma LevCell(a: string, b: string, i: nat, j: nat)
    requires i < |a| && j < |b|
    ensures Lev(a[..i + 1], b[..j + 1]) ==
      Min3(Lev(a[..i], b[..j + 1]) + 1,
           Lev(a[..i + 1], b[..j]) + 1,
           Lev(a[..i], b[..j]) + (if a[i] == b[j] then 0 else 1))
  {
    var row, col := a[..i + 1], b[..j + 1];
    assert row[..i] == a[..i] && row[i] == a[i];
    assert col[..j] == b[..j] && col[j] == b[j];
  }

  /** Row `i + 1` of the dynamic programme from row `i`: entry `j` is the
      distance between `a[..i + 1]` and `b[..j]`. */
  method NextRow(a: string, b: string, i: nat, prev: seq<nat>) returns (cur: seq<nat>)
    requires i < |a| && |prev| == |b| + 1
    requires forall j :: 0 <= j <= |b| ==> prev[j] == Lev(a[..i], b[..j])
    ensures |cur| == |b| + 1
    ensures forall j :: 0 <= j <= |b| ==> cur[j] == Lev(a[..i + 1], b[..j])
  {
    assert b[..0] == [];
    cur := [i + 1];
    var j := 0;
    while j < |b|
      invariant 0 <= j <= |b|
      invariant |cur| == j + 1
      invariant forall k :: 0 <= k <= j ==> cur[k] == Lev(a[..i + 1], b[..k])
    {
      LevCell(a, b, i, j);
      var cost := if a[i] == b[j] then 0 else 1;
      cur := cur + [Min3(prev[j + 1] + 1, cur[j] + 1, prev[j] + cost)];
      j := j + 1;
    }
  }

  /** The row-by-row dynamic programme over prefixes of `a` and `b`. */
  method EditDistance(a: string, b: string) returns (d: nat)
    ensures d == Lev(a, b)
  {
    var prev: seq<nat> := seq(|b| + 1, j => j);
    assert a[..0] == [];
    var i := 0;
    while i < |a|
      invariant 0 <= i <= |a|
      invariant |prev| == |b| + 1
      invariant forall j :: 0 <= j <= |b| ==> prev[j] == Lev(a[..i], b[..j])
    {
      prev := NextRow(a, b, i, prev);
      i := i + 1;
    }
    assert a[..|a|] == a && b[..|b|] == b;
    d := prev[|b|];
  }
}
