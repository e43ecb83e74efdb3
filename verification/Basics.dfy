/** Small functions on numbers, strings and sequences. */
module Basics {
  function Min(a: nat, b: nat): nat { if a <= b then a else b }

  predicate Distinct<T(==)>(s: seq<T>) { forall i, j :: 0 <= i < j < |s| ==> s[i] != s[j] }

  /** s.split(c, 1)[0]. */
  function Before(s: string, c: char): string {
    if s == "" || s[0] == c then "" else [s[0]] + Before(s[1..], c)
  }

  /** s without the dropped characters at its end. */
  function StripRight(s: string, drop: char -> bool): (r: string)
    ensures r <= s && (r != "" ==> !drop(r[|r| - 1]))
    ensures forall i :: |r| <= i < |s| ==> drop(s[i])
  {
    if s != "" && drop(s[|s| - 1]) then StripRight(s[..|s| - 1], drop) else s
  }

  /** Positions below n, in order. */
  predicate AscendingBelow(at: seq<nat>, n: nat) {
    (forall k :: 0 <= k < |at| ==> at[k] < n) && forall j, k :: 0 <= j < k < |at| ==> at[j] < at[k]
  }

  lemma OneMoreAscends(at: seq<nat>, n: nat)
    requires AscendingBelow(at, n)
    ensures AscendingBelow(at, n + 1) && AscendingBelow(at + [n], n + 1)
  {
  }

  /** r holds what s has at these positions, in order. */
  ghost predicate Picks<T>(s: seq<T>, at: seq<nat>, r: seq<T>) {
    AscendingBelow(at, |s|) && |r| == |at| && forall k :: 0 <= k < |at| ==> r[k] == s[at[k]]
  }

  lemma PicksMore<T>(s: seq<T>, at: seq<nat>, r: seq<T>, x: T)
    requires Picks(s, at, r)
    ensures Picks(s + [x], at, r) && Picks(s + [x], at + [|s|], r + [x])
    ensures forall i: nat :: i in at ==> i < |s|
  {
    OneMoreAscends(at, |s|);
  }
}
