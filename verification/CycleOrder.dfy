/** Which agent leads a cycle that `all_cycles` lists, told from the calls alone
    (`src/salient_core/coord/delegation_graph.py:120-166`). */
module CycleOrder {
  import opened Sequences
  import opened Rotations
  import opened DelegationGraph
  import opened CycleEnumeration

  // ---- Where a listed cycle comes from ----

  /** Whatever is added below the walk `s` is the loop of a simple walk that extends it. */
  lemma {:induction false} AddedIsLoop(calls: seq<Call>, adj: map<string, seq<string>>, s: seq<string>, k: nat,
                                       before: seq<seq<string>>, out: seq<seq<string>>, c: seq<string>)
    returns (q: seq<string>, y: string)
    requires Leads(calls, adj) && s != [] && SimpleWalk(calls, s) && k <= |Out(adj, Last(s))|
    requires out == Explored(adj, s, k, before) && c in out && c !in before
    ensures s <= q && BackEdge(calls, q, y) && c == Loop(q, y) + [y]
    decreases Unvisited(adj, s), k
  {
    var j := k - 1;
    var nxt, mid := Out(adj, Last(s))[j], Explored(adj, s, j, before);
    assert Call(Last(s), nxt) in calls;
    if c in mid {
      q, y := AddedIsLoop(calls, adj, s, j, before, mid, c);
    } else if nxt in s {
      ExploredBack(adj, s, nxt, k, before);
      AddedByRecord(mid, Loop(s, nxt), nxt, out, c);
      q, y := s, nxt;
    } else {
      OneLessUnvisited(adj, s, Last(s), nxt);
      WalkExtends(calls, s, nxt);
      ExploredOn(adj, s, nxt, k, before);
      q, y := AddedIsLoop(calls, adj, s + [nxt], |Out(adj, nxt)|, mid, out, c);
    }
  }

  lemma AddedByRecord(before: seq<seq<string>>, p: seq<string>, y: string, out: seq<seq<string>>, c: seq<string>)
    requires out == Record(before, p, y) && c in out && c !in before
    ensures c == p + [y]
  {
  }

  /** The turn of the loop over the roots in which `c` is listed. */
  lemma {:induction false} AddedUnder(adj: map<string, seq<string>>, roots: seq<string>, c: seq<string>)
    returns (i: nat)
    requires c in ExploredFrom(adj, roots)
    ensures i < |roots| && c in ExploredFrom(adj, roots[..i + 1]) && c !in ExploredFrom(adj, roots[..i])
  {
    var front := Front(roots);
    if c in ExploredFrom(adj, front) {
      i := AddedUnder(adj, front, c);
      assert front[..i + 1] == roots[..i + 1] && front[..i] == roots[..i];
    } else {
      i := |front|;
      assert roots[..i + 1] == roots && roots[..i] == front;
    }
  }

  lemma OneMoreRoot(adj: map<string, seq<string>>, roots: seq<string>, i: nat)
    requires i < |roots|
    ensures var r := roots[i];
      ExploredFrom(adj, roots[..i + 1]) == Explored(adj, [r], |Out(adj, r)|, ExploredFrom(adj, roots[..i]))
  {
    assert Front(roots[..i + 1]) == roots[..i] && Last(roots[..i + 1]) == roots[i];
  }

  lemma {:induction false} RootsOnlyAdd(calls: seq<Call>, adj: map<string, seq<string>>, roots: seq<string>,
                                        i: nat, j: nat)
    requires Leads(calls, adj) && i <= j <= |roots|
    ensures ExploredFrom(adj, roots[..i]) <= ExploredFrom(adj, roots[..j])
    decreases j
  {
    if i < j {
      RootsOnlyAdd(calls, adj, roots, i, j - 1);
      RootsExplored(calls, adj, roots[..j - 1]);
      OneMoreRoot(adj, roots, j - 1);
      var r := roots[j - 1];
      ExploredSettles(calls, adj, [r], |Out(adj, r)|, ExploredFrom(adj, roots[..j - 1]), ExploredFrom(adj, roots[..j]));
    }
  }

  /** Listed in the turn of `r`, a cycle holds only nodes that `r` reaches, and is led
      by `r` if it holds `r`. */
  lemma ListedInTurn(calls: seq<Call>, adj: map<string, seq<string>>, r: string, before: seq<seq<string>>,
                     c: seq<string>, x: string)
    requires Leads(calls, adj)
    requires c in Explored(adj, [r], |Out(adj, r)|, before) && c !in before && x in c
    ensures exists q :: Route(calls, r, x, q)
    ensures x == r ==> c[0] == r
  {
    var q, y := AddedIsLoop(calls, adj, [r], |Out(adj, r)|, before, Explored(adj, [r], |Out(adj, r)|, before), c);
    LoopOfWalk(calls, q, y, x);
  }

  lemma LoopOfWalk(calls: seq<Call>, q: seq<string>, y: string, x: string)
    requires BackEdge(calls, q, y) && x in Loop(q, y) + [y]
    ensures exists p :: Route(calls, q[0], x, p)
    ensures x == q[0] ==> (Loop(q, y) + [y])[0] == x
  {
    var p := Loop(q, y);
    assert p[0] == y;
    assert x in p;
    var j :| 0 <= j < |p| && p[j] == x;
    var at := IndexOf(q, y) + j;
    assert q[at] == x;
    var w := q[..at + 1];
    forall i | 0 <= i < |w| - 1 ensures Call(w[i], w[i + 1]) in calls {
      assert Call(q[i], q[i + 1]) in calls;
    }
    assert Route(calls, q[0], x, w);
  }

  // ---- A cycle is listed once ----

  lemma RotatedCycle(calls: seq<Call>, c: seq<string>, m: nat) returns (d: seq<string>)
    requires IsCycle(calls, c) && m < |c| - 1
    ensures IsCycle(calls, d) && Front(d) == Rotate(Front(c), m) && d[0] == c[m]
  {
    var f := Rotate(Front(c), m);
    d := f + [f[0]];
    assert Front(d) == f;
    var n := |f|;
    forall i | 0 <= i < n ensures Call(d[i], d[i + 1]) in calls {
      var at := if i + m < n then i + m else i + m - n;
      assert d[i] == c[at];
      assert d[i + 1] == c[at + 1];
      assert Call(c[at], c[at + 1]) in calls;
    }
  }

  /** Once the turn of a node on a cycle is over, some rotation of it is listed. */
  lemma CoveredFromAnyNode(calls: seq<Call>, out: seq<seq<string>>, c: seq<string>, r: string)
    requires IsCycle(calls, c) && r in c && Covered(calls, [r], out)
    ensures Listed(out, Front(c))
  {
    var m :| 0 <= m < |c| && c[m] == r;
    var d := RotatedCycle(calls, c, if m == |c| - 1 then 0 else m);
    EveryCycleIsBackEdge(calls, d);
    assert [r] <= Front(d);
    assert Listed(out, Front(d));
    var e :| e in out && e != [] && IsRotation(Front(e), Front(d));
    RotationsCompose(Front(e), Front(d), Front(c));
  }

  lemma RotationsCompose(a: seq<string>, b: seq<string>, c: seq<string>)
    requires IsRotation(a, b) && IsRotation(c, b)
    ensures IsRotation(a, c)
  {
    var j: nat :| j <= |a| && b == Rotate(a, j);
    var k: nat :| k <= |c| && b == Rotate(c, k);
    RotateBack(c, k);
    var m := RotateRotate(a, j, |c| - k);
    assert c == Rotate(a, m);
  }

  /** So no later turn lists it again. */
  lemma NotListedLater(calls: seq<Call>, before: seq<seq<string>>, out: seq<seq<string>>, c: seq<string>)
    requires Recorded(calls, out) && before <= out && c in out && Listed(before, Front(c))
    ensures c in before
  {
    var d :| d in before && d != [] && IsRotation(Front(d), Front(c));
    var i :| 0 <= i < |before| && before[i] == d;
    var j :| 0 <= j < |out| && out[j] == c;
    if j >= |before| {
      assert out[i] == d && SameCycle(out[i], out[j]);
    }
  }

  // ---- The main result ----

  /** No agent that placed a call before `r` did leads to `r`. */
  ghost predicate FirstToReach(calls: seq<Call>, r: string) {
    && r in Callers(calls)
    && forall i, q | 0 <= i < IndexOf(Callers(calls), r) :: !Route(calls, Callers(calls)[i], r, q)
  }

  /** After the turn of `r` no cycle through it is added. */
  lemma NotAfterItsTurn(calls: seq<Call>, adj: map<string, seq<string>>, roots: seq<string>, j: nat, i: nat,
                        c: seq<string>)
    requires Leads(calls, adj) && j < i < |roots| && roots[j] in c
    requires c in ExploredFrom(adj, roots[..i + 1])
    ensures c in ExploredFrom(adj, roots[..i])
  {
    var done, before, after := roots[..j + 1], ExploredFrom(adj, roots[..i]), ExploredFrom(adj, roots[..i + 1]);
    RootsOnlyAdd(calls, adj, roots, i, i + 1);
    RootsExplored(calls, adj, roots[..i + 1]);
    ListedOnceDone(calls, adj, done, roots[j], after, c);
    RootsOnlyAdd(calls, adj, roots, j + 1, i);
    StaysListed(ExploredFrom(adj, done), before, Front(c));
    NotListedLater(calls, before, after, c);
  }

  lemma ListedOnceDone(calls: seq<Call>, adj: map<string, seq<string>>, done: seq<string>, r: string,
                       after: seq<seq<string>>, c: seq<string>)
    requires Leads(calls, adj) && r in done && Recorded(calls, after) && c in after && r in c
    ensures c != [] && Listed(ExploredFrom(adj, done), Front(c))
  {
    var at :| 0 <= at < |after| && after[at] == c;
    RootsExplored(calls, adj, done);
    CoveredFromAnyNode(calls, ExploredFrom(adj, done), c, r);
  }

  lemma TurnOf(calls: seq<Call>, adj: map<string, seq<string>>, r: string, c: seq<string>, i: nat)
    requires Leads(calls, adj) && FirstToReach(calls, r) && r in c && i < |Callers(calls)|
    requires c in ExploredFrom(adj, Callers(calls)[..i + 1]) && c !in ExploredFrom(adj, Callers(calls)[..i])
    ensures i == IndexOf(Callers(calls), r)
  {
    var roots, j := Callers(calls), IndexOf(Callers(calls), r);
    OneMoreRoot(adj, roots, i);
    ListedInTurn(calls, adj, roots[i], ExploredFrom(adj, roots[..i]), c, r);
    if i > j {
      NotAfterItsTurn(calls, adj, roots, j, i, c);
    }
  }

  lemma CanonicalCycle(calls: seq<Call>, c: seq<string>)
    requires IsCycle(calls, c)
    ensures InCanonicalForm(c) <==> forall x | x in c :: LexLeq(c[0], x)
  {
    var p := Front(c);
    CanonicalStartsLeast(p);
    assert forall x :: x in c <==> x in p by {
      assert c == p + [p[0]];
    }
  }

  /** Every listed cycle through an agent that no earlier caller reaches, the first
      caller among them, is led by that agent, and so is in the promised canonical
      form exactly when that agent's name is the least on it. */
  lemma FirstToReachLeads(calls: seq<Call>, r: string, c: seq<string>)
    requires FirstToReach(calls, r) && c in Listing(calls) && r in c
    ensures IsCycle(calls, c) && c[0] == r
    ensures InCanonicalForm(c) <==> forall x | x in c :: LexLeq(r, x)
  {
    var adj, roots := AdjacencyOf(calls), Callers(calls);
    assert Leads(calls, adj);
    var i := AddedUnder(adj, roots, c);
    TurnOf(calls, adj, r, c, i);
    OneMoreRoot(adj, roots, i);
    ListedInTurn(calls, adj, r, ExploredFrom(adj, roots[..i]), c, r);
    EveryCycleIsListed(calls);
    var at :| 0 <= at < |Listing(calls)| && Listing(calls)[at] == c;
    CanonicalCycle(calls, c);
  }

  /** The first agent to place a call leads every listed cycle it is on. */
  lemma FirstCallerLeadsItsCycles(calls: seq<Call>, c: seq<string>)
    requires calls != [] && c in Listing(calls) && calls[0].caller in c
    ensures c[0] == calls[0].caller
    ensures InCanonicalForm(c) <==> forall x | x in c :: LexLeq(calls[0].caller, x)
  {
    FirstCallerIsFirst(calls);
    assert IndexOf(Callers(calls), calls[0].caller) == 0;
    FirstToReachLeads(calls, calls[0].caller, c);
  }

  lemma {:induction false} FirstCallerIsFirst(calls: seq<Call>)
    requires calls != []
    ensures Callers(calls) != [] && Callers(calls)[0] == calls[0].caller
  {
    if |calls| > 1 {
      FirstCallerIsFirst(Front(calls));
    } else {
      assert Front(calls) == [];
    }
  }
}
