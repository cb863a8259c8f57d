/** Every interleaving of `ask_agent` and `ask_agents` calls, seen as a run of
    atomic registry steps (`src/salient_core/bus/_delegation.py:516-575`). */
module DelegationProtocol {
  import opened Wrappers
  import opened Sequences
  import opened DelegationGraph
  import opened DelegationSafety
  import opened BusRegistry

  // ---- Runs ----

  /** `agents` are the names that may place calls. Targets are unrestricted, and
      a swarm label is never the name of an agent. */
  predicate PlacedBy(agents: set<string>, e: Event) {
    match e
    case Ask(caller, _, _) => caller in agents
    case Fan(owner, _, swarmLabel) => owner in agents && swarmLabel !in agents
    case Drop(_) => true
  }

  ghost predicate Run(agents: set<string>, lim: Limits, events: seq<Event>, states: seq<Registry>) {
    && |states| == |events| + 1
    && states[0] == EMPTY
    && forall i | 0 <= i < |events| ::
         PlacedBy(agents, events[i]) && Step(lim, states[i], events[i], states[i + 1])
  }

  // ---- Safety ----

  ghost predicate Counted(rows: seq<BusCall>) {
    forall c | c in rows :: c.depth >= 0
  }

  ghost predicate Safe(agents: set<string>, s: Registry) {
    && Acyclic(Edges(s.rows))
    && CallersIn(Edges(s.rows), agents)
    && Counted(s.rows)
  }

  /** Too few agents, too few places in the registry, or no call by an agent
      that is being called itself. */
  predicate Guarded(agents: set<string>, lim: Limits) {
    TooFew(|agents|, lim.maxDepth) || TooFew(lim.maxInflight, lim.maxDepth) || lim.maxNesting < 1
  }

  lemma RowIsEdge(rows: seq<BusCall>, c: BusCall)
    requires c in rows
    ensures Call(c.caller, c.target) in Edges(rows)
  {
    var i :| 0 <= i < |rows| && rows[i] == c;
    assert Edges(rows)[i] == Call(c.caller, c.target);
  }

  lemma EdgeIsRow(rows: seq<BusCall>, e: Call) returns (c: BusCall)
    requires e in Edges(rows)
    ensures c in rows && e == Call(c.caller, c.target)
  {
    var i :| 0 <= i < |rows| && Edges(rows)[i] == e;
    c := rows[i];
  }

  lemma FewerCallsStayAcyclic(calls: seq<Call>, fewer: seq<Call>)
    requires Acyclic(calls) && forall c | c in fewer :: c in calls
    ensures Acyclic(fewer)
  {
    forall p | Walk(fewer, p) && |p| >= 2 ensures p[0] != Last(p) {
      assert Walk(calls, p);
    }
  }

  lemma FewerCallsKeepSafe(agents: set<string>, s: Registry, s': Registry)
    requires Safe(agents, s)
    requires forall c | c in s'.rows :: c in s.rows
    ensures Safe(agents, s')
  {
    forall e | e in Edges(s'.rows) ensures e in Edges(s.rows) {
      var c := EdgeIsRow(s'.rows, e);
      RowIsEdge(s.rows, c);
    }
    FewerCallsStayAcyclic(Edges(s.rows), Edges(s'.rows));
  }

  lemma LongWalkHasCalls(calls: seq<Call>, p: seq<string>)
    requires Walk(calls, p) && |p| >= 2
    ensures calls != []
  {
    assert Call(p[0], p[1]) in calls;
  }

  lemma EmptyIsSafe(agents: set<string>)
    ensures Safe(agents, EMPTY)
  {
    forall p: seq<string> ensures Walk(Edges(EMPTY.rows), p) ==> |p| < 2 {
      if Walk(Edges(EMPTY.rows), p) && |p| >= 2 {
        LongWalkHasCalls(Edges(EMPTY.rows), p);
      }
    }
  }

  lemma RouteStartsAtAgent(calls: seq<Call>, agents: set<string>, a: string, b: string, q: seq<string>)
    requires CallersIn(calls, agents) && b in agents && Route(calls, a, b, q)
    ensures a in agents
  {
    if |q| > 1 {
      assert Call(q[0], q[1]) in calls;
    }
  }

  function CallerSet(rows: seq<BusCall>): (r: set<string>)
    ensures |r| <= |rows|
    ensures forall c | c in rows :: c.caller in r
  {
    if rows == [] then {} else CallerSet(Front(rows)) + {Last(rows).caller}
  }

  /** A route of at least one edge ends in the target of a row. */
  lemma RouteEndsInTarget(rows: seq<BusCall>, a: string, b: string, q: seq<string>) returns (c: BusCall)
    requires Route(Edges(rows), a, b, q) && a != b
    ensures c in rows && c.target == b
  {
    assert Call(q[|q| - 2], q[|q| - 1]) in Edges(rows);
    c := EdgeIsRow(rows, Call(q[|q| - 2], q[|q| - 1]));
  }

  /** With one of the three guards in place, a call that is let through closes no loop. */
  lemma AskClosesNothing(agents: set<string>, lim: Limits, s: Registry, caller: string, target: string)
    requires Guarded(agents, lim) && Safe(agents, s) && caller in agents
    requires !CycleVisible(Edges(s.rows), caller, target, lim.maxDepth) && Admitted(lim, s.rows, caller)
    ensures forall q :: !Route(Edges(s.rows), target, caller, q)
  {
    if TooFew(|agents|, lim.maxDepth) {
      BoundIsHarmless(Edges(s.rows), agents, caller, target, lim.maxDepth);
    } else if TooFew(lim.maxInflight, lim.maxDepth) {
      var callers := CallerSet(s.rows) + {caller};
      forall e | e in Edges(s.rows) ensures e.caller in callers {
        var c := EdgeIsRow(s.rows, e);
      }
      BoundIsHarmless(Edges(s.rows), callers, caller, target, lim.maxDepth);
    } else {
      DepthExactly(s.rows, caller);
      forall q ensures !Route(Edges(s.rows), target, caller, q) {
        if Route(Edges(s.rows), target, caller, q) {
          var c := RouteEndsInTarget(s.rows, target, caller, q);
        }
      }
    }
  }

  lemma RegisterKeepsSafe(agents: set<string>, s: Registry, caller: string, target: string,
                          parent: Option<nat>, swarm: bool)
    requires Safe(agents, s) && caller in agents
    requires forall q :: !Route(Edges(s.rows), target, caller, q)
    ensures Safe(agents, Registered(s, caller, target, parent, swarm))
  {
    var s' := Registered(s, caller, target, parent, swarm);
    DepthExactly(s.rows, caller);
    FanOutKeepsAcyclic(Edges(s.rows), caller, [target]);
    assert Edges(s'.rows) == Edges(s.rows) + FanOut(caller, [target]);
  }

  lemma StepKeepsSafe(agents: set<string>, lim: Limits, s: Registry, e: Event, s': Registry)
    requires Guarded(agents, lim)
    requires Safe(agents, s) && PlacedBy(agents, e) && Step(lim, s, e, s')
    ensures Safe(agents, s')
  {
    match e {
      case Ask(caller, target, parent) =>
        AskClosesNothing(agents, lim, s, caller, target);
        RegisterKeepsSafe(agents, s, caller, target, parent, false);
      case Fan(owner, targets, swarmLabel) =>
        forall q ensures !Route(Edges(s.rows), swarmLabel, owner, q) {
          if Route(Edges(s.rows), swarmLabel, owner, q) {
            RouteStartsAtAgent(Edges(s.rows), agents, swarmLabel, owner, q);
          }
        }
        RegisterKeepsSafe(agents, s, owner, swarmLabel, None, true);
      case Drop(ids) =>
        WithoutExactly(s.rows, ids);
        FewerCallsKeepSafe(agents, s, s');
    }
  }

  lemma NextIsSafe(agents: set<string>, lim: Limits, events: seq<Event>, states: seq<Registry>, i: nat)
    requires Guarded(agents, lim)
    requires Run(agents, lim, events, states) && i < |events| && Safe(agents, states[i])
    ensures Safe(agents, states[i + 1])
  {
    StepKeepsSafe(agents, lim, states[i], events[i], states[i + 1]);
  }

  lemma {:induction false} GuardedRunsAreSafe(agents: set<string>, lim: Limits,
                                              events: seq<Event>, states: seq<Registry>, n: nat)
    requires Guarded(agents, lim)
    requires Run(agents, lim, events, states) && n < |states|
    ensures Safe(agents, states[n])
  {
    if n == 0 {
      assert states[n] == EMPTY;
      EmptyIsSafe(agents);
    } else {
      var i := n - 1;
      GuardedRunsAreSafe(agents, lim, events, states, i);
      NextIsSafe(agents, lim, events, states, i);
    }
  }

  // ---- The registry in every run ----

  /** Ids are never shared, and every call that was admitted is within the nesting
      limit. The parent rows of fan-outs are not admitted. */
  ghost predicate WellNumbered(lim: Limits, s: Registry) {
    && (forall i | 0 <= i < |s.rows| :: s.rows[i].id < s.nextId && 0 <= s.rows[i].depth)
    && (forall i, j | 0 <= i < j < |s.rows| :: s.rows[i].id < s.rows[j].id)
    && (forall i | 0 <= i < |s.rows| && !s.rows[i].swarmParent :: s.rows[i].depth <= lim.maxNesting)
  }

  lemma {:induction false} WithoutKeeps(lim: Limits, rows: seq<BusCall>, nextId: nat, ids: set<nat>)
    requires WellNumbered(lim, Registry(rows, nextId))
    ensures WellNumbered(lim, Registry(Without(rows, ids), nextId))
    ensures forall c | c in Without(rows, ids) :: c in rows
  {
    if rows != [] {
      var front := Front(rows);
      assert WellNumbered(lim, Registry(front, nextId));
      WithoutKeeps(lim, front, nextId, ids);
      WithoutExactly(front, ids);
      WithoutExactly(rows, ids);
      var kept := Without(front, ids);
      forall i | 0 <= i < |kept| ensures kept[i].id < Last(rows).id {
        assert kept[i] in front;
      }
    }
  }

  /** In every run ids are distinct and rising in the order of registration, so a
      resolve takes out one row, and no admitted call is nested too deep. */
  lemma {:induction false} RegistryStaysWellNumbered(agents: set<string>, lim: Limits,
                                                     events: seq<Event>, states: seq<Registry>, n: nat)
    requires Run(agents, lim, events, states) && n < |states|
    ensures WellNumbered(lim, states[n])
  {
    if n > 0 {
      var k := n - 1;
      RegistryStaysWellNumbered(agents, lim, events, states, k);
      StepKeepsNumbers(lim, states[k], events[k], states[n]);
    }
  }

  lemma StepKeepsNumbers(lim: Limits, s: Registry, e: Event, s': Registry)
    requires WellNumbered(lim, s) && Step(lim, s, e, s')
    ensures WellNumbered(lim, s')
    ensures e.Ask? ==> |s'.rows| <= lim.maxInflight
  {
    match e {
      case Ask(caller, _, _) => DepthExactly(s.rows, caller);
      case Fan(owner, _, _) => DepthExactly(s.rows, owner);
      case Drop(ids) => WithoutKeeps(lim, s.rows, s.nextId, ids);
    }
  }

  lemma {:induction false} OneTakenOut(before: seq<BusCall>, row: BusCall, after: seq<BusCall>, ids: set<nat>)
    requires row.id in ids
    requires forall c | c in before + after :: c.id !in ids
    ensures Without(before + [row] + after, ids) == before + after
  {
    if after == [] {
      assert before + [row] + after == before + [row] && before + after == before;
      assert Front(before + [row]) == before;
      NoneTakenOut(before, ids);
    } else {
      OneTakenOut(before, row, Front(after), ids);
      assert Front(before + [row] + after) == before + [row] + Front(after);
      assert before + after == before + Front(after) + [Last(after)];
    }
  }

  lemma OthersHaveOtherIds(rows: seq<BusCall>, i: nat)
    requires i < |rows| && forall j, k | 0 <= j < k < |rows| :: rows[j].id < rows[k].id
    ensures forall c | c in rows[..i] :: c.id != rows[i].id
    ensures forall c | c in rows[i + 1..] :: c.id != rows[i].id
  {
  }

  /** A resolve takes out the one row with that id. */
  lemma ResolveTakesOne(lim: Limits, rows: seq<BusCall>, nextId: nat, i: nat)
    requires WellNumbered(lim, Registry(rows, nextId)) && i < |rows|
    ensures Without(rows, {rows[i].id}) == rows[..i] + rows[i + 1..]
  {
    OthersHaveOtherIds(rows, i);
    OneTakenOut(rows[..i], rows[i], rows[i + 1..], {rows[i].id});
    assert rows == rows[..i] + [rows[i]] + rows[i + 1..];
  }

  lemma {:induction false} NoneTakenOut(rows: seq<BusCall>, ids: set<nat>)
    requires forall c | c in rows :: c.id !in ids
    ensures Without(rows, ids) == rows
  {
    if rows != [] {
      assert rows == Front(rows) + [Last(rows)];
      NoneTakenOut(Front(rows), ids);
    }
  }

  /** A ladder of calls, each placed by the target of the one before: the call at
      place `i` has depth `i`, and with the shipped limits the tenth is refused. */
  lemma LadderDepth(rows: seq<BusCall>, caller: string)
    requires Ladder(rows) && (rows == [] || caller == Last(rows).target)
    requires forall i | 0 <= i < |rows| - 1 :: rows[i].target != caller
    ensures DepthFor(rows, caller) == |rows|
    ensures Admitted(SHIPPED_LIMITS, rows, caller) <==> |rows| <= 8
  {
    DepthExactly(rows, caller);
    if rows != [] {
      assert Last(rows) in rows;
      if c :| c in rows && c.target == caller && c.depth + 1 == DepthFor(rows, caller) {
        var i :| 0 <= i < |rows| && rows[i] == c;
      }
    }
  }

  ghost predicate Ladder(rows: seq<BusCall>) {
    && (forall i | 0 <= i < |rows| :: rows[i].depth == i)
    && (forall i | 0 <= i < |rows| - 1 :: rows[i].target == rows[i + 1].caller)
  }

  /** The shipped limits: 256 calls in flight, nine levels. */
  lemma ShippedAdmission(rows: seq<BusCall>, caller: string, depth: int)
    requires NextDepth(rows, caller, depth)
    ensures Admitted(SHIPPED_LIMITS, rows, caller) <==> |rows| < 256 && depth <= 8
  {
    DepthExactly(rows, caller);
  }

  // ---- No delegation deadlock ----

  ghost predicate Calls(rows: seq<BusCall>, a: string) {
    exists c :: c in rows && c.caller == a
  }

  /** `a` waits for some agent that waits as well. */
  ghost predicate Stuck(rows: seq<BusCall>, a: string) {
    exists c :: c in rows && c.caller == a && Calls(rows, c.target)
  }

  ghost predicate AllStuck(rows: seq<BusCall>) {
    forall a {:trigger Stuck(rows, a)} :: Calls(rows, a) ==> Stuck(rows, a)
  }

  /** Following stuck agents for `n` steps. */
  lemma {:induction false} StuckWalk(rows: seq<BusCall>, a: string, n: nat) returns (p: seq<string>)
    requires Calls(rows, a) && AllStuck(rows)
    ensures |p| == n + 1 && p[0] == a && Walk(Edges(rows), p)
    ensures forall i | 0 <= i < |p| :: Calls(rows, p[i])
    decreases n
  {
    p := [a];
    if n > 0 {
      assert Stuck(rows, a);
      var c :| c in rows && c.caller == a && Calls(rows, c.target);
      var rest := StuckWalk(rows, c.target, n - 1);
      p := [a] + rest;
      RowIsEdge(rows, c);
      forall k | 0 <= k < |p| - 1 ensures Call(p[k], p[k + 1]) in Edges(rows) {
        if k > 0 { assert Call(rest[k - 1], rest[k]) in Edges(rows); }
      }
    }
  }

  lemma NotAllStuck(agents: set<string>, s: Registry)
    requires Safe(agents, s) && s.rows != []
    ensures !AllStuck(s.rows)
  {
    if AllStuck(s.rows) {
      var p := StuckWalk(s.rows, s.rows[0].caller, |agents|);
      forall x | x in p ensures x in agents {
        var i :| 0 <= i < |p| && p[i] == x;
        var c :| c in s.rows && c.caller == x;
        RowIsEdge(s.rows, c);
      }
      if i, j :| 0 <= i < j < |p| && p[i] == p[j] {
        ClosedPart(Edges(s.rows), p, i, j);
      } else {
        DistinctFits(p, agents);
      }
    }
  }

  /** While the graph is acyclic and calls are in flight, some waiting agent
      waits only on agents that are not waiting themselves. */
  lemma SomeAgentCanRun(agents: set<string>, s: Registry)
    requires Safe(agents, s) && s.rows != []
    ensures exists a :: Calls(s.rows, a) && forall c | c in s.rows && c.caller == a :: !Calls(s.rows, c.target)
  {
    NotAllStuck(agents, s);
    var a :| Calls(s.rows, a) && !Stuck(s.rows, a);
  }

  lemma ClosedPart(calls: seq<Call>, p: seq<string>, i: nat, j: nat)
    requires Walk(calls, p) && i < j < |p| && p[i] == p[j]
    ensures !Acyclic(calls)
  {
    var q := p[i..j + 1];
    forall k | 0 <= k < |q| - 1 ensures Call(q[k], q[k + 1]) in calls {
      assert Call(p[i + k], p[i + k + 1]) in calls;
    }
    assert Walk(calls, q) && q[0] == Last(q);
  }

  // ---- Without a guard a loop can close ----

  /** The rows of a chain `a[k] -> a[k + 1] -> ... -> Last(a)`, the last call first. */
  ghost function ChainRows(a: seq<string>, k: nat): (r: seq<BusCall>)
    requires k < |a|
    ensures |r| == |a| - 1 - k
    ensures forall i | 0 <= i < |r| ::
              r[i] == BusCall(1 + i, a[|a| - 2 - i], a[|a| - 1 - i], 0, None, false)
  {
    seq(|a| - 1 - k, i requires 0 <= i < |a| - 1 - k =>
          BusCall(1 + i, a[|a| - 2 - i], a[|a| - 1 - i], 0, None, false))
  }

  ghost function ChainState(a: seq<string>, k: nat): Registry
    requires k < |a|
  {
    Registry(ChainRows(a, k), |a| - k)
  }

  /** In a chain a walk moves one place per edge, so its two ends are exactly
      as far apart as the chain says. */
  lemma {:induction false} ChainWalk(a: seq<string>, k: nat, p: seq<string>, i: nat)
    requires Distinct(a) && k < |a| && i < |a|
    requires Walk(Edges(ChainRows(a, k)), p) && p[0] == a[i]
    ensures i + |p| - 1 < |a| && Last(p) == a[i + |p| - 1]
    ensures |p| > 1 ==> k <= i
  {
    if |p| > 1 {
      var q := Front(p);
      forall j | 0 <= j < |q| - 1 ensures Call(q[j], q[j + 1]) in Edges(ChainRows(a, k)) {
        assert Call(p[j], p[j + 1]) in Edges(ChainRows(a, k));
      }
      ChainWalk(a, k, q, i);
      assert Call(p[|p| - 2], p[|p| - 1]) in Edges(ChainRows(a, k));
      var j :| 0 <= j < |ChainRows(a, k)| && Edges(ChainRows(a, k))[j] == Call(p[|p| - 2], p[|p| - 1]);
      assert a[|a| - 2 - j] == a[i + |q| - 1];
      assert |a| - 2 - j == i + |q| - 1;
    }
  }

  lemma {:induction false} ChainDepth(rows: seq<BusCall>, caller: string)
    requires forall c | c in rows :: c.depth == 0
    ensures 0 <= DepthFor(rows, caller) <= 1
    ensures (forall c | c in rows :: c.target != caller) ==> DepthFor(rows, caller) == 0
  {
    if rows != [] {
      forall c | c in Front(rows) ensures c in rows {
        var i :| 0 <= i < |Front(rows)| && Front(rows)[i] == c;
      }
      ChainDepth(Front(rows), caller);
      assert Last(rows) in rows;
    }
  }

  /** `a` is a fleet one agent too large, under limits that leave room for the chain. */
  ghost predicate Chain(lim: Limits, a: seq<string>) {
    && lim.maxNesting >= 1
    && Distinct(a) && |a| >= 2 && |a| >= lim.maxDepth + 3
    && lim.maxInflight >= |a|
  }

  /** Growing the chain by one agent at its head is an ordinary `ask_agent`. */
  lemma ChainStep(lim: Limits, a: seq<string>, k: nat)
    requires Chain(lim, a)
    requires k + 1 < |a|
    ensures Step(lim, ChainState(a, k + 1), Ask(a[k], a[k + 1], None), ChainState(a, k))
  {
    var s := ChainState(a, k + 1);
    var caller, target := a[k], a[k + 1];
    forall p ensures !Route(Edges(s.rows), target, caller, p) {
      if Route(Edges(s.rows), target, caller, p) {
        ChainWalk(a, k + 1, p, k + 1);
      }
    }
    ChainDepth(s.rows, a[k]);
    assert ChainState(a, k).rows == s.rows + [BusCall(s.nextId, a[k], a[k + 1], 0, None, false)];
  }

  lemma ChainIsAcyclic(a: seq<string>)
    requires Distinct(a) && a != []
    ensures Acyclic(Edges(ChainRows(a, 0)))
  {
    var edges := Edges(ChainRows(a, 0));
    forall p | Walk(edges, p) && |p| >= 2 ensures p[0] != Last(p) {
      assert Call(p[0], p[1]) in edges;
      var j :| 0 <= j < |edges| && edges[j] == Call(p[0], p[1]);
      ChainWalk(a, 0, p, |a| - 2 - j);
    }
  }

  /** Past the bound a chain hides the loop that a call from its end to its
      beginning closes. */
  lemma ChainHidesItsLoop(a: seq<string>, maxDepth: int)
    requires Distinct(a) && |a| >= 2 && |a| >= maxDepth + 3
    ensures !CycleVisible(Edges(ChainRows(a, 0)), Last(a), a[0], maxDepth)
    ensures !Acyclic(Edges(ChainRows(a, 0)) + FanOut(Last(a), [a[0]]))
  {
    var edges := Edges(ChainRows(a, 0));
    forall p | Route(edges, a[0], Last(a), p) ensures |p| - 1 > maxDepth + 1 {
      ChainWalk(a, 0, p, 0);
    }
    forall i | 0 <= i < |a| - 1 ensures Call(a[i], a[i + 1]) in edges {
      assert edges[|a| - 2 - i] == Call(a[i], a[i + 1]);
    }
    assert Route(edges, a[0], Last(a), a);
    UnsafeTargetClosesLoop(edges, Last(a), [a[0]], a[0], a);
  }

  /** So past the bound a fan-out can be let through and still close a loop. */
  lemma FanOutVerdictPastTheBound(a: seq<string>, maxDepth: int, r: map<string, Option<seq<string>>>)
    requires Distinct(a) && |a| >= 2 && |a| >= maxDepth + 3
    requires FanOutVerdicts(Edges(ChainRows(a, 0)), Last(a), [a[0]], maxDepth, r)
    ensures Acyclic(Edges(ChainRows(a, 0)))
    ensures forall t | t in r :: r[t].None?
    ensures !Acyclic(Edges(ChainRows(a, 0)) + FanOut(Last(a), [a[0]]))
  {
    ChainIsAcyclic(a);
    ChainHidesItsLoop(a, maxDepth);
  }

  /** Once the chain is `maxDepth + 2` calls long, the call that closes it into a
      loop goes unnoticed. */
  lemma ClosingStep(lim: Limits, a: seq<string>) returns (s': Registry)
    requires Chain(lim, a)
    ensures Step(lim, ChainState(a, 0), Ask(Last(a), a[0], None), s')
    ensures !Acyclic(Edges(s'.rows))
  {
    var s := ChainState(a, 0);
    ChainHidesItsLoop(a, lim.maxDepth);
    ChainDepth(s.rows, Last(a));
    s' := Registered(s, Last(a), a[0], None, false);
    assert Edges(s'.rows) == Edges(s.rows) + FanOut(Last(a), [a[0]]);
  }

  lemma RunExtends(agents: set<string>, lim: Limits, events: seq<Event>, states: seq<Registry>, e: Event, s: Registry)
    requires Run(agents, lim, events, states) && PlacedBy(agents, e) && Step(lim, Last(states), e, s)
    ensures Run(agents, lim, events + [e], states + [s])
  {
    var es, ss := events + [e], states + [s];
    forall i | 0 <= i < |es| ensures PlacedBy(agents, es[i]) && Step(lim, ss[i], es[i], ss[i + 1]) {
      if i < |events| {
        assert Step(lim, states[i], events[i], states[i + 1]);
      }
    }
  }

  lemma {:induction false} ChainRun(agents: set<string>, lim: Limits, a: seq<string>, k: nat)
    returns (events: seq<Event>, states: seq<Registry>)
    requires Chain(lim, a)
    requires forall x | x in a :: x in agents
    requires k < |a|
    ensures Run(agents, lim, events, states) && Last(states) == ChainState(a, k)
    decreases |a| - k
  {
    if k == |a| - 1 {
      events, states := [], [EMPTY];
    } else {
      events, states := ChainRun(agents, lim, a, k + 1);
      ChainStep(lim, a, k);
      assert a[k] in agents;
      RunExtends(agents, lim, events, states, Ask(a[k], a[k + 1], None), ChainState(a, k));
      states := states + [ChainState(a, k)];
      events := events + [Ask(a[k], a[k + 1], None)];
    }
  }

  lemma {:induction false} PickDistinct(agents: set<string>, n: nat) returns (a: seq<string>)
    requires n <= |agents|
    ensures |a| == n && Distinct(a) && forall x | x in a :: x in agents
  {
    a := [];
    if n > 0 {
      var x :| x in agents;
      a := PickDistinct(agents - {x}, n - 1);
      a := a + [x];
    }
  }

  lemma UnguardedRunsCanLoop(agents: set<string>, lim: Limits) returns (events: seq<Event>, states: seq<Registry>)
    requires !Guarded(agents, lim)
    ensures Run(agents, lim, events, states) && !Acyclic(Edges(Last(states).rows))
  {
    var a := PickDistinct(agents, Max(lim.maxDepth + 3, 2));
    events, states := ChainRun(agents, lim, a, 0);
    var s' := ClosingStep(lim, a);
    assert Last(a) in agents;
    RunExtends(agents, lim, events, states, Ask(Last(a), a[0], None), s');
    states := states + [s'];
    events := events + [Ask(Last(a), a[0], None)];
  }

  // ---- The main result ----

  /** Whatever the interleaving, no state of any run contains a loop. */
  ghost predicate NeverLoops(agents: set<string>, lim: Limits) {
    forall events: seq<Event>, states: seq<Registry> | Run(agents, lim, events, states) ::
      forall n | 0 <= n < |states| :: Acyclic(Edges(states[n].rows))
  }

  /** For all limits: the wait-for graph stays acyclic over every run exactly
      when at most `maxDepth + 2` agents place calls, or the registry holds at
      most `maxDepth + 2` of them, or nested calls are refused outright. */
  lemma LoopFreeExactly(agents: set<string>, lim: Limits)
    ensures NeverLoops(agents, lim) <==> Guarded(agents, lim)
  {
    if Guarded(agents, lim) {
      forall events: seq<Event>, states: seq<Registry> | Run(agents, lim, events, states)
        ensures forall n | 0 <= n < |states| :: Acyclic(Edges(states[n].rows))
      {
        forall n | 0 <= n < |states| ensures Acyclic(Edges(states[n].rows)) {
          GuardedRunsAreSafe(agents, lim, events, states, n);
        }
      }
    } else {
      var events, states := UnguardedRunsCanLoop(agents, lim);
      assert !Acyclic(Edges(states[|states| - 1].rows));
    }
  }

  /** The check of a fan-out by any of `agents` is right about every acyclic graph
      of their calls. */
  ghost predicate FanOutsExact(agents: set<string>, maxDepth: int) {
    forall calls, owner, targets, r: map<string, Option<seq<string>>>
      | Acyclic(calls) && CallersIn(calls, agents) && owner in agents
        && FanOutVerdicts(calls, owner, targets, maxDepth, r) ::
      (forall t | t in r :: r[t].None?) <==> Acyclic(calls + FanOut(owner, targets))
  }

  /** It is exactly for fleets that are too small for a hidden loop. */
  lemma FanOutsExactExactly(agents: set<string>, maxDepth: int)
    ensures FanOutsExact(agents, maxDepth) <==> TooFew(|agents|, maxDepth)
  {
    if TooFew(|agents|, maxDepth) {
      forall calls, owner, targets, r: map<string, Option<seq<string>>>
        | Acyclic(calls) && CallersIn(calls, agents) && owner in agents
        && FanOutVerdicts(calls, owner, targets, maxDepth, r)
        ensures (forall t | t in r :: r[t].None?) <==> Acyclic(calls + FanOut(owner, targets))
      {
        FanOutVerdictIsExact(calls, agents, owner, targets, maxDepth, r);
      }
    } else {
      var a := PickDistinct(agents, Max(maxDepth + 3, 2));
      var calls, r := Edges(ChainRows(a, 0)), map[a[0] := None];
      ChainHidesItsLoop(a, maxDepth);
      ChainCallersIn(a, agents);
      assert FanOutVerdicts(calls, Last(a), [a[0]], maxDepth, r);
      FanOutVerdictPastTheBound(a, maxDepth, r);
      assert Last(a) in agents;
    }
  }

  lemma ChainCallersIn(a: seq<string>, agents: set<string>)
    requires a != [] && forall x | x in a :: x in agents
    ensures CallersIn(Edges(ChainRows(a, 0)), agents)
  {
    forall e | e in Edges(ChainRows(a, 0)) ensures e.caller in agents {
      var c := EdgeIsRow(ChainRows(a, 0), e);
      var i :| 0 <= i < |ChainRows(a, 0)| && ChainRows(a, 0)[i] == c;
      assert a[|a| - 2 - i] in a;
    }
  }

  /** With the shipped limits: 66 agents are safe, 67 are not. */
  lemma ShippedLimit(agents: set<string>)
    ensures NeverLoops(agents, SHIPPED_LIMITS) <==> |agents| <= 66
  {
    LoopFreeExactly(agents, SHIPPED_LIMITS);
  }

  /** No run under one of the guards deadlocks: whenever calls are in flight,
      some waiting agent is held up by nobody who waits. */
  lemma GuardedRunsNeverDeadlock(agents: set<string>, lim: Limits, events: seq<Event>, states: seq<Registry>, n: nat)
    requires Guarded(agents, lim)
    requires Run(agents, lim, events, states) && n < |states| && states[n].rows != []
    ensures exists a :: Calls(states[n].rows, a)
              && forall c | c in states[n].rows && c.caller == a :: !Calls(states[n].rows, c.target)
  {
    GuardedRunsAreSafe(agents, lim, events, states, n);
    SomeAgentCanRun(agents, states[n]);
  }
}
