/** Rotations of name lists and the canonical rotation that starts at the
    lexically least name: `canonical` inside `all_cycles`
    (`src/salient_core/coord/delegation_graph.py`). */
module Rotations {
  import opened Sequences

  // ---- Lexical order on names ----

  predicate LexLeq(a: string, b: string) {
    a == [] || (b != [] && if a[0] == b[0] then LexLeq(a[1..], b[1..]) else a[0] < b[0])
  }

  lemma LexTotal(a: string, b: string)
    ensures LexLeq(a, b) || LexLeq(b, a)
  {
  }

  lemma {:induction false} LexAntisymmetric(a: string, b: string)
    requires LexLeq(a, b) && LexLeq(b, a)
    ensures a == b
  {
    if a != [] {
      LexAntisymmetric(a[1..], b[1..]);
      assert a == [a[0]] + a[1..] && b == [b[0]] + b[1..];
    }
  }

  lemma LexTransitive(a: string, b: string, c: string)
    requires LexLeq(a, b) && LexLeq(b, c)
    ensures LexLeq(a, c)
  {
  }

  // ---- Rotations ----

  function Rotate<T(!new)>(p: seq<T>, k: nat): (r: seq<T>)
    requires k <= |p|
    ensures |r| == |p|
    ensures forall i | 0 <= i < |p| :: r[i] == p[if i + k < |p| then i + k else i + k - |p|]
    ensures Elements(r) == Elements(p)
  {
    var r := p[k..] + p[..k];
    assert p == p[..k] + p[k..];
    r
  }

  ghost predicate IsRotation<T(!new)>(p: seq<T>, q: seq<T>) {
    exists k: nat :: k <= |p| && q == Rotate(p, k)
  }

  lemma RotateRotate<T(!new)>(p: seq<T>, j: nat, k: nat) returns (m: nat)
    requires j <= |p| && k <= |p|
    ensures m <= |p| && Rotate(Rotate(p, j), k) == Rotate(p, m)
  {
    m := if j + k <= |p| then j + k else j + k - |p|;
  }

  lemma RotateBack<T(!new)>(p: seq<T>, k: nat)
    requires k <= |p|
    ensures Rotate(Rotate(p, k), |p| - k) == p
  {
  }

  // ---- Canonical rotation ----

  /** The first position that holds a least name. */
  function LeastAt(p: seq<string>): (m: nat)
    requires p != []
    ensures m < |p|
    ensures forall k | 0 <= k < |p| :: LexLeq(p[m], p[k])
  {
    if |p| == 1 then
      LexTotal(p[0], p[0]);
      0
    else
      var m := LeastAt(Front(p));
      LexTotal(p[m], Last(p));
      LexTotal(Last(p), Last(p));
      if LexLeq(p[m], Last(p)) then m
      else
        assert forall k | 0 <= k < |p| - 1 :: LexLeq(Last(p), p[k]) by {
          forall k | 0 <= k < |p| - 1 ensures LexLeq(Last(p), p[k]) {
            assert p[k] == Front(p)[k];
            LexTransitive(Last(p), p[m], p[k]);
          }
        }
        |p| - 1
  }

  function Canonical(p: seq<string>): seq<string> {
    if p == [] then [] else Rotate(p, LeastAt(p))
  }

  /** Two rotations of one duplicate-free list that start alike are equal. */
  lemma SameStartSameRotation(p: seq<string>, j: nat, k: nat)
    requires p != [] && Distinct(p) && j <= |p| && k <= |p|
    requires Rotate(p, j)[0] == Rotate(p, k)[0]
    ensures Rotate(p, j) == Rotate(p, k)
  {
  }

  /** The canonical rotation is a key for "same cycle": two duplicate-free lists
      share it exactly when one is a rotation of the other. */
  lemma CanonicalIsKey(p: seq<string>, q: seq<string>)
    requires Distinct(p) && Distinct(q)
    ensures Canonical(p) == Canonical(q) <==> IsRotation(p, q)
  {
    if Canonical(p) == Canonical(q) {
      if p == [] {
        assert q == Rotate(p, 0);
      } else {
        RotateBack(q, LeastAt(q));
        var m := RotateRotate(p, LeastAt(p), |q| - LeastAt(q));
        assert q == Rotate(p, m);
      }
    }
    if k: nat :| k <= |p| && q == Rotate(p, k) {
      if p != [] {
        var m := RotateRotate(p, k, LeastAt(q));
        var a, b := p[LeastAt(p)], q[LeastAt(q)];
        assert a in Elements(q) && b in Elements(p);
        LexAntisymmetric(a, b);
        SameStartSameRotation(p, m, LeastAt(p));
      }
    }
  }
}
