/** What a cycle check is worth: which edges can be added to an acyclic graph,
    when the depth bound cannot hide a loop, and how the single-edge search
    agrees with the full enumeration
    (`src/salient_core/coord/delegation_graph.py`). */
module DelegationSafety {
  import opened Wrappers
  import opened Sequences
  import opened Rotations
  import opened DelegationGraph
  import opened CycleEnumeration

  // ---- Adding calls ----

  function FanOut(owner: string, targets: seq<string>): (r: seq<Call>)
    ensures |r| == |targets|
    ensures forall i | 0 <= i < |r| :: r[i] == Call(owner, targets[i])
  {
    seq(|targets|, i requires 0 <= i < |targets| => Call(owner, targets[i]))
  }

  /** A walk that meets `owner` only at its end uses none of the owner's new calls. */
  lemma OldWalk(calls: seq<Call>, owner: string, targets: seq<string>, p: seq<string>)
    requires Walk(calls + FanOut(owner, targets), p)
    requires forall i | 0 <= i < |p| - 1 :: p[i] != owner
    ensures Walk(calls, p)
  {
    forall i | 0 <= i < |p| - 1 ensures Call(p[i], p[i + 1]) in calls {
      assert Call(p[i], p[i + 1]) in calls + FanOut(owner, targets);
    }
  }

  /** A closed walk of the extended graph that visits `owner` contains, for one
      of the owner's calls, an old route from its target back to the owner. */
  lemma RouteBackToOwner(calls: seq<Call>, owner: string, targets: seq<string>, p: seq<string>, i: nat)
    returns (q: seq<string>)
    requires Walk(calls + FanOut(owner, targets), p) && |p| >= 2 && p[0] == Last(p)
    requires i < |p| - 1 && p[i] == owner
    ensures q != [] && Call(owner, q[0]) in calls + FanOut(owner, targets)
    ensures Route(calls, q[0], owner, q)
  {
    var ext := calls + FanOut(owner, targets);
    var around := p[i + 1..] + p[1..i + 1];
    forall k | 0 <= k < |around| - 1 ensures Call(around[k], around[k + 1]) in ext {
      var n := |p| - 1 - i;
      if k < n {
        assert Call(p[i + k], p[i + k + 1]) in ext;
        if k < n - 1 {
          assert Call(p[i + 1 + k], p[i + 1 + k + 1]) in ext;
        } else {
          assert around[k] == p[0] && around[k + 1] == p[1];
          assert Call(p[0], p[1]) in ext;
        }
      } else {
        assert Call(p[k - n + 1], p[k - n + 2]) in ext;
      }
    }
    assert Last(around) == owner by {
      if i == 0 { assert Last(around) == Last(p); }
    }
    assert owner in around;
    var e := IndexOf(around, owner);
    q := around[..e + 1];
    assert Call(p[i], p[i + 1]) in ext;
    assert Walk(ext, q) by {
      forall k | 0 <= k < |q| - 1 ensures Call(q[k], q[k + 1]) in ext {
        assert Call(around[k], around[k + 1]) in ext;
      }
    }
    OldWalk(calls, owner, targets, q);
  }

  lemma OldLoop(calls: seq<Call>, owner: string, q: seq<string>)
    requires q != [] && Route(calls, q[0], owner, q) && Call(owner, q[0]) in calls
    ensures !Acyclic(calls)
  {
    var p := [owner] + q;
    forall k | 0 <= k < |p| - 1 ensures Call(p[k], p[k + 1]) in calls {
      if k > 0 { assert Call(q[k - 1], q[k]) in calls; }
    }
    assert Walk(calls, p) && p[0] == Last(p);
  }

  lemma NewLoopHasOldRoute(calls: seq<Call>, owner: string, targets: seq<string>, p: seq<string>)
    requires Acyclic(calls)
    requires Walk(calls + FanOut(owner, targets), p) && |p| >= 2 && p[0] == Last(p)
    ensures exists t, q :: t in targets && Route(calls, t, owner, q)
  {
    if i :| 0 <= i < |p| - 1 && p[i] == owner {
      var q := RouteBackToOwner(calls, owner, targets, p, i);
      if Call(owner, q[0]) in calls {
        OldLoop(calls, owner, q);
      }
    } else {
      OldWalk(calls, owner, targets, p);
    }
  }

  /** Checking each target alone against the unchanged graph is enough: every
      new call leaves the same owner, so any loop made by several of them
      already contains a loop made by one. */
  lemma FanOutKeepsAcyclic(calls: seq<Call>, owner: string, targets: seq<string>)
    requires Acyclic(calls)
    requires forall t | t in targets :: forall q :: !Route(calls, t, owner, q)
    ensures Acyclic(calls + FanOut(owner, targets))
  {
    forall p | Walk(calls + FanOut(owner, targets), p) && |p| >= 2 ensures p[0] != Last(p) {
      if p[0] == Last(p) {
        NewLoopHasOldRoute(calls, owner, targets, p);
      }
    }
  }

  /** Conversely, one bad target is enough to spoil the fan-out. */
  lemma UnsafeTargetClosesLoop(calls: seq<Call>, owner: string, targets: seq<string>, t: string, q: seq<string>)
    requires t in targets && Route(calls, t, owner, q)
    ensures !Acyclic(calls + FanOut(owner, targets))
  {
    var ext := calls + FanOut(owner, targets);
    var i :| 0 <= i < |targets| && targets[i] == t;
    assert FanOut(owner, targets)[i] == Call(owner, t);
    var p := [owner] + q;
    forall k | 0 <= k < |p| - 1 ensures Call(p[k], p[k + 1]) in ext {
      if k > 0 { assert Call(q[k - 1], q[k]) in calls; }
    }
    assert Walk(ext, p) && p[0] == Last(p);
  }

  // ---- The depth bound ----

  lemma CutDetour(calls: seq<Call>, a: string, b: string, p: seq<string>, i: nat, j: nat) returns (q: seq<string>)
    requires Route(calls, a, b, p) && i < j < |p| && p[i] == p[j]
    ensures Route(calls, a, b, q) && |q| < |p|
  {
    q := p[..i] + p[j..];
    forall k | 0 <= k < |q| - 1 ensures Call(q[k], q[k + 1]) in calls {
      if k < i {
        assert Call(p[k], p[k + 1]) in calls;
      } else {
        assert Call(p[k - i + j], p[k - i + j + 1]) in calls;
      }
    }
  }

  /** Cutting the detours out of a route leaves a route without repeated nodes. */
  lemma SimpleRoute(calls: seq<Call>, a: string, b: string, p: seq<string>) returns (q: seq<string>)
    requires Route(calls, a, b, p)
    ensures Route(calls, a, b, q) && Distinct(q) && |q| <= |p|
    decreases |p|
  {
    q := p;
    if i, j :| 0 <= i < j < |p| && p[i] == p[j] {
      q := CutDetour(calls, a, b, p, i, j);
      q := SimpleRoute(calls, a, b, q);
    }
  }

  /** A shortest route has no repeated nodes, so the path `find_cycle` returns is a simple cycle. */
  lemma FoundCycleIsSimple(calls: seq<Call>, caller: string, target: string, maxDepth: int, r: Option<seq<string>>)
    requires FindCycleSpec(calls, caller, target, maxDepth, r) && r.Some?
    ensures IsCycle(calls + FanOut(caller, [target]), r.value)
  {
    var ext := calls + FanOut(caller, [target]);
    assert FanOut(caller, [target])[0] == Call(caller, target);
    if caller != target {
      var p := Front(r.value);
      if i, j :| 0 <= i < j < |p| && p[i] == p[j] {
        var shorter := CutDetour(calls, target, caller, p, i, j);
      }
      forall k | 0 <= k < |r.value| - 1 ensures Call(r.value[k], r.value[k + 1]) in ext {
        if k < |p| - 1 { assert Call(p[k], p[k + 1]) in calls; }
      }
    }
  }

  ghost predicate CallersIn(calls: seq<Call>, agents: set<string>) {
    forall c | c in calls :: c.caller in agents
  }

  /** `n` is too few for a loop that the search misses: that takes a route of
      `maxDepth + 2` edges, and never less than one. */
  predicate TooFew(n: int, maxDepth: int) {
    n <= maxDepth + 2 || n <= 1
  }

  /** With at most `maxDepth + 2` agents that place calls, the bound hides
      nothing: the search sees a loop exactly when there is one. */
  lemma BoundIsHarmless(calls: seq<Call>, agents: set<string>, caller: string, target: string, maxDepth: int)
    requires CallersIn(calls, agents) && caller in agents
    requires TooFew(|agents|, maxDepth)
    ensures CycleVisible(calls, caller, target, maxDepth)
       <==> caller == target || exists p :: Route(calls, target, caller, p)
  {
    if p :| Route(calls, target, caller, p) {
      var q := SimpleRoute(calls, target, caller, p);
      forall x | x in q ensures x in agents {
        var i :| 0 <= i < |q| && q[i] == x;
        if i < |q| - 1 { assert Call(q[i], q[i + 1]) in calls; }
      }
      DistinctFits(q, agents);
    }
  }

  /** The verdicts of a fan-out check. */
  ghost predicate FanOutVerdicts(calls: seq<Call>, owner: string, targets: seq<string>, maxDepth: int,
                                 r: map<string, Option<seq<string>>>) {
    && r.Keys == Elements(targets)
    && forall t | t in r :: FindCycleSpec(calls, owner, t, maxDepth, r[t])
  }

  lemma RefusedFanOutLoops(calls: seq<Call>, owner: string, targets: seq<string>, maxDepth: int,
                           r: map<string, Option<seq<string>>>, t: string)
    requires FanOutVerdicts(calls, owner, targets, maxDepth, r) && t in r && r[t].Some?
    ensures !Acyclic(calls + FanOut(owner, targets))
  {
    if t == owner {
      assert Route(calls, t, owner, [owner]);
      UnsafeTargetClosesLoop(calls, owner, targets, t, [owner]);
    } else {
      UnsafeTargetClosesLoop(calls, owner, targets, t, Front(r[t].value));
    }
  }

  /** On small fleets the separate verdicts on several targets are right about
      all of them at once: none finds a path exactly when the owner can call
      every target at the same time without closing a loop. */
  lemma FanOutVerdictIsExact(calls: seq<Call>, agents: set<string>, owner: string, targets: seq<string>,
                             maxDepth: int, r: map<string, Option<seq<string>>>)
    requires Acyclic(calls) && CallersIn(calls, agents) && owner in agents
    requires TooFew(|agents|, maxDepth)
    requires FanOutVerdicts(calls, owner, targets, maxDepth, r)
    ensures (forall t | t in r :: r[t].None?) <==> Acyclic(calls + FanOut(owner, targets))
  {
    if t :| t in r && r[t].Some? {
      RefusedFanOutLoops(calls, owner, targets, maxDepth, r, t);
    } else {
      forall t | t in targets ensures forall q :: !Route(calls, t, owner, q) {
        assert t in r;
        BoundIsHarmless(calls, agents, owner, t, maxDepth);
        assert FindCycleSpec(calls, owner, t, maxDepth, r[t]);
      }
      FanOutKeepsAcyclic(calls, owner, targets);
    }
  }

  // ---- Agreement of the two searches ----

  /** The cycle `c` goes through the call from `a` to `b`. */
  ghost predicate UsesCall(c: seq<string>, a: string, b: string) {
    exists k :: 0 <= k < |c| - 1 && c[k] == a && c[k + 1] == b
  }

  function Around(n: nat, i: nat): nat
    requires i < 2 * n
  {
    if i < n then i else i - n
  }

  /** Read around the loop `f`, the node after `f[i]` is `b`. */
  ghost predicate Follows(f: seq<string>, i: nat, b: string) {
    i < |f| && f[Around(|f|, i + 1)] == b
  }

  lemma UsesCallAround(c: seq<string>, i: nat, b: string)
    requires |c| >= 2 && c[0] == Last(c) && i < |c| - 1
    ensures Follows(Front(c), i, b) <==> c[i + 1] == b
  {
  }

  lemma RotateAt(f: seq<string>, k: nat, j: nat)
    requires k <= |f| && j < |f|
    ensures Rotate(f, k)[j] == f[Around(|f|, j + k)]
  {
  }

  lemma FollowsRotated(f: seq<string>, k: nat, j: nat, b: string)
    requires k <= |f| && j < |f| && Follows(Rotate(f, k), j, b)
    ensures Follows(f, Around(|f|, j + k), b)
  {
    RotateAt(f, k, Around(|f|, j + 1));
  }

  lemma SameCycleUsesCall(c: seq<string>, d: seq<string>, a: string, b: string)
    requires |c| >= 2 && c[0] == Last(c) && |d| >= 2 && d[0] == Last(d)
    requires SameCycle(c, d) && UsesCall(d, a, b)
    ensures UsesCall(c, a, b)
  {
    var k: nat :| k <= |Front(c)| && Front(d) == Rotate(Front(c), k);
    var j :| 0 <= j < |d| - 1 && d[j] == a && d[j + 1] == b;
    UsesCallAround(d, j, b);
    FollowsRotated(Front(c), k, j, b);
    RotateAt(Front(c), k, j);
    UsesCallAround(c, Around(|Front(c)|, j + k), b);
  }

  /** The proposed call is the last but one place of a path that was found. */
  lemma ClosingPlace(calls: seq<Call>, caller: string, target: string, maxDepth: int, r: Option<seq<string>>)
    requires FindCycleSpec(calls, caller, target, maxDepth, r) && r.Some?
    ensures |r.value| >= 2
    ensures r.value[|r.value| - 2] == caller && r.value[|r.value| - 1] == target
  {
    if caller != target {
      assert Last(Front(r.value)) == r.value[|r.value| - 2];
    }
  }

  lemma PlaceInListing(calls: seq<Call>, out: seq<seq<string>>, c: seq<string>) returns (i: nat)
    requires AllCyclesSpec(calls, out) && IsCycle(calls, c)
    ensures i < |out| && SameCycle(out[i], c)
  {
    i :| 0 <= i < |out| && SameCycle(out[i], c);
  }

  lemma FoundCycleIsListed(calls: seq<Call>, caller: string, target: string, maxDepth: int,
                           r: Option<seq<string>>, out: seq<seq<string>>)
    requires FindCycleSpec(calls, caller, target, maxDepth, r) && r.Some?
    requires AllCyclesSpec(calls + FanOut(caller, [target]), out)
    ensures exists i :: 0 <= i < |out| && UsesCall(out[i], caller, target)
  {
    FoundCycleIsSimple(calls, caller, target, maxDepth, r);
    ClosingPlace(calls, caller, target, maxDepth, r);
    var i := PlaceInListing(calls + FanOut(caller, [target]), out, r.value);
    SameCycleUsesCall(out[i], r.value, caller, target);
  }

  lemma RouteAroundCycle(calls: seq<Call>, caller: string, target: string, p: seq<string>, k: nat)
    requires IsCycle(calls + FanOut(caller, [target]), p)
    requires k < |p| - 1 && p[k] == caller && p[k + 1] == target
    ensures exists q :: Route(calls, target, caller, q)
  {
    var ext := calls + FanOut(caller, [target]);
    var q := p[k + 1..] + p[1..k + 1];
    var n := |p| - 1 - k;
    forall j | 0 <= j < |q| - 1 ensures Call(q[j], q[j + 1]) in ext && q[j] != caller {
      var i := if j < n - 1 then k + 1 + j else j - (n - 1);
      assert q[j] == p[i] && q[j + 1] == p[i + 1];
      assert Call(p[i], p[i + 1]) in ext;
      assert Front(p)[i] == p[i] && Front(p)[k] == p[k];
    }
    OldWalk(calls, caller, [target], q);
    assert Route(calls, target, caller, q);
  }

  /** On small fleets the single-edge search and the enumeration of the extended
      graph give the same verdict on the proposed call. */
  lemma SearchesAgree(calls: seq<Call>, agents: set<string>, caller: string, target: string, maxDepth: int,
                      r: Option<seq<string>>, out: seq<seq<string>>)
    requires CallersIn(calls, agents) && caller in agents && TooFew(|agents|, maxDepth)
    requires FindCycleSpec(calls, caller, target, maxDepth, r)
    requires AllCyclesSpec(calls + FanOut(caller, [target]), out)
    ensures r.Some? <==> exists i :: 0 <= i < |out| && UsesCall(out[i], caller, target)
  {
    if r.Some? {
      FoundCycleIsListed(calls, caller, target, maxDepth, r, out);
    }
    if i :| 0 <= i < |out| && UsesCall(out[i], caller, target) {
      var p := out[i];
      var k :| 0 <= k < |p| - 1 && p[k] == caller && p[k + 1] == target;
      RouteAroundCycle(calls, caller, target, p, k);
      BoundIsHarmless(calls, agents, caller, target, maxDepth);
    }
  }
}
