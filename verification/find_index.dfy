/**
 * The identifier search the favourites store relies on.
 *
 * `addFavourite` calls a `findIndex` helper from the `find-index` utility,
 * whose body is not part of this model; `removeFavourite` calls the built-in
 * `Array.prototype.findIndex` with the predicate `id === pokemonId`. Both
 * are modelled by the one function below, under the assumption that the
 * utility behaves like the built-in: a first-match linear scan with exact
 * equality that yields -1 when the target is absent.
 */
module Identifiers {

  /** Position of the first element of `s` equal to `target`, or -1. */
  function FindIndex(s: seq<int>, target: int): (r: int)
    ensures -1 <= r < |s|
    ensures r == -1 <==> target !in s
    ensures 0 <= r ==> s[r] == target
    ensures forall j :: 0 <= j < r ==> s[j] != target
    decreases |s|
  {
    if |s| == 0 then -1
    else if s[0] == target then 0
    else
      var k := FindIndex(s[1..], target);
      if k == -1 then -1 else k + 1
  }

  /** Searching past a prefix that does not hold the target shifts the answer by the prefix length. */
  lemma {:induction false} FindIndexAppendAbsent(s: seq<int>, t: seq<int>, target: int)
    requires target !in s
    ensures FindIndex(s + t, target) == if target in t then |s| + FindIndex(t, target) else -1
    decreases |s|
  {
    if |s| > 0 {
      assert (s + t)[1..] == s[1..] + t;
      FindIndexAppendAbsent(s[1..], t, target);
    } else {
      assert s + t == t;
    }
  }

  /** Appending elements after a list that already holds the target does not move its first index. */
  lemma {:induction false} FindIndexAppendPresent(s: seq<int>, t: seq<int>, target: int)
    requires target in s
    ensures FindIndex(s + t, target) == FindIndex(s, target)
    decreases |s|
  {
    assert (s + t)[0] == s[0];
    if s[0] != target {
      assert (s + t)[1..] == s[1..] + t;
      FindIndexAppendPresent(s[1..], t, target);
    }
  }
}
