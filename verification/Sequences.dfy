/** Facts about sequences that several components share. */
module Sequences {
  function Min(a: int, b: int): int {
    if a <= b then a else b
  }

  ghost predicate Distinct<T(!new)>(s: seq<T>) {
    forall i, j | 0 <= i < j < |s| :: s[i] != s[j]
  }

  function Elements<T>(s: seq<T>): (r: set<T>) {
    set x | x in s
  }

  function Last<T>(s: seq<T>): T
    requires s != []
  {
    s[|s| - 1]
  }

  /** `s` without its last element. */
  function Front<T>(s: seq<T>): seq<T>
    requires s != []
  {
    s[..|s| - 1]
  }

  function IndexOf<T(==)>(s: seq<T>, x: T): (i: nat)
    requires x in s
    ensures i < |s| && s[i] == x
    ensures forall k | 0 <= k < i :: s[k] != x
  {
    if s[0] == x then 0 else 1 + IndexOf(s[1..], x)
  }

  function Reverse<T>(s: seq<T>): (r: seq<T>)
    ensures |r| == |s|
    ensures forall i | 0 <= i < |s| :: r[i] == s[|s| - 1 - i]
  {
    if s == [] then [] else [Last(s)] + Reverse(Front(s))
  }

  /** A duplicate-free sequence is no longer than any set that holds it. */
  lemma {:induction false} DistinctFits<T(!new)>(s: seq<T>, universe: set<T>)
    requires Distinct(s)
    requires forall x | x in s :: x in universe
    ensures |s| <= |universe|
  {
    if s != [] {
      var rest := Front(s);
      forall x | x in rest ensures x in universe - {Last(s)} {
        var i :| 0 <= i < |rest| && rest[i] == x;
      }
      DistinctFits(rest, universe - {Last(s)});
    }
  }

  lemma RemovedAt<T(!new)>(s: seq<T>, i: nat)
    requires Distinct(s) && i < |s|
    ensures Distinct(s[..i] + s[i + 1..]) && s[i] !in s[..i] + s[i + 1..]
    ensures forall x | x != s[i] :: x in s <==> x in s[..i] + s[i + 1..]
  {
    var r := s[..i] + s[i + 1..];
    forall x | x != s[i] && x in s ensures x in r {
      var k :| 0 <= k < |s| && s[k] == x;
      assert x == if k < i then r[k] else r[k - 1];
    }
  }
}
