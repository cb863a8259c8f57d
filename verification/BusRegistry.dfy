/** The registry of in-flight delegations and the await-free section of
    `ask_agent` that checks, admits and registers a call
    (`src/salient_core/bus/_delegation.py`, `src/salient_core/daemon/_questions.py`). */
module BusRegistry {
  import opened Wrappers
  import opened Sequences
  import opened DelegationGraph

  /** One row of `_bus_calls`. Futures, previews and timestamps are not modelled. */
  datatype BusCall = BusCall(id: nat, caller: string, target: string, depth: int,
                             parentCallId: Option<nat>, swarmParent: bool)

  datatype Limits = Limits(maxDepth: int, maxNesting: int, maxInflight: int)

  /** `find_cycle`'s default, MAX_DELEGATION_DEPTH and MAX_INFLIGHT_BUS_CALLS. */
  const SHIPPED_LIMITS := Limits(64, 8, 256)

  /** The registry as a value: the rows in insertion order, and the next id. */
  datatype Registry = Registry(rows: seq<BusCall>, nextId: nat)

  const EMPTY := Registry([], 1)

  function Edges(rows: seq<BusCall>): (r: seq<Call>)
    ensures |r| == |rows|
    ensures forall i | 0 <= i < |r| :: r[i] == Call(rows[i].caller, rows[i].target)
  {
    seq(|rows|, i requires 0 <= i < |rows| => Call(rows[i].caller, rows[i].target))
  }

  function Max(a: int, b: int): int { if a < b then b else a }

  /** One more than the deepest call whose target is `caller`; 0 for a root. */
  function DepthFor(rows: seq<BusCall>, caller: string): int {
    if rows == [] then 0
    else
      var rest := DepthFor(Front(rows), caller);
      if Last(rows).target == caller then Max(rest, Last(rows).depth + 1) else rest
  }

  /** `depth` is one more than the deepest call that `caller` is the target of, and 0
      if there is none. */
  ghost predicate NextDepth(rows: seq<BusCall>, caller: string, depth: int) {
    && depth >= 0
    && (forall c | c in rows && c.target == caller :: c.depth + 1 <= depth)
    && (depth > 0 ==> exists c :: c in rows && c.target == caller && c.depth + 1 == depth)
  }

  lemma {:induction false} DepthExactly(rows: seq<BusCall>, caller: string)
    ensures NextDepth(rows, caller, DepthFor(rows, caller))
  {
    if rows != [] {
      var rest := DepthFor(Front(rows), caller);
      DepthExactly(Front(rows), caller);
      assert rows == Front(rows) + [Last(rows)];
      if rest > 0 {
        var c :| c in Front(rows) && c.target == caller && c.depth + 1 == rest;
        assert c in rows;
      }
    }
  }

  lemma OneNextDepth(rows: seq<BusCall>, caller: string, depth: int)
    requires NextDepth(rows, caller, depth)
    ensures forall other | NextDepth(rows, caller, other) :: other == depth
  {
  }

  predicate Admitted(lim: Limits, rows: seq<BusCall>, caller: string) {
    |rows| < lim.maxInflight && DepthFor(rows, caller) <= lim.maxNesting
  }

  function Registered(s: Registry, caller: string, target: string, parent: Option<nat>, swarm: bool): Registry {
    Registry(s.rows + [BusCall(s.nextId, caller, target, DepthFor(s.rows, caller), parent, swarm)], s.nextId + 1)
  }

  /** The rows whose id is not in `ids`, in order. */
  function Without(rows: seq<BusCall>, ids: set<nat>): seq<BusCall> {
    if rows == [] then []
    else Without(Front(rows), ids) + if Last(rows).id in ids then [] else [Last(rows)]
  }

  lemma {:induction false} WithoutExactly(rows: seq<BusCall>, ids: set<nat>)
    ensures forall c :: c in Without(rows, ids) <==> c in rows && c.id !in ids
  {
    if rows != [] {
      WithoutExactly(Front(rows), ids);
      assert rows == Front(rows) + [Last(rows)];
    }
  }

  // ---- The atomic steps of the registry ----

  /** `Ask`: one passage through the await-free section of `ask_agent`.
      `Fan`: the same for the parent row of `ask_agents`.
      `Drop`: any rows leave, by resolve, cancel or cascade, at any time. */
  datatype Event =
    | Ask(caller: string, target: string, parent: Option<nat>)
    | Fan(owner: string, targets: seq<string>, swarmLabel: string)
    | Drop(ids: set<nat>)

  ghost predicate Step(lim: Limits, s: Registry, e: Event, s': Registry) {
    match e
    case Ask(caller, target, parent) =>
      && !CycleVisible(Edges(s.rows), caller, target, lim.maxDepth)
      && Admitted(lim, s.rows, caller)
      && s' == Registered(s, caller, target, parent, false)
    case Fan(owner, targets, swarmLabel) =>
      && (forall t | t in targets :: !CycleVisible(Edges(s.rows), owner, t, lim.maxDepth))
      && s' == Registered(s, owner, swarmLabel, None, true)
    case Drop(ids) =>
      s' == s.(rows := Without(s.rows, ids))
  }

  datatype Reply = CycleRefused(path: seq<string>) | AdmissionRefused | InFlight(id: nat)
  datatype FanOutReply = FanOutRefused(offenders: set<string>) | FannedOut(id: nat)

  class BusCalls {
    const limits: Limits
    var rows: seq<BusCall>
    var nextId: nat

    constructor (limits: Limits)
      ensures State() == EMPTY && this.limits == limits
    {
      this.limits := limits;
      rows, nextId := [], 1;
    }

    ghost function State(): Registry
      reads this
    {
      Registry(rows, nextId)
    }

    /** `_bus_call_depth_for` */
    method CallDepth(caller: string) returns (depth: int)
      ensures depth == DepthFor(rows, caller) && NextDepth(rows, caller, depth)
    {
      var deepest := -1;
      for i := 0 to |rows|
        invariant deepest + 1 == DepthFor(rows[..i], caller)
      {
        if rows[i].target == caller && rows[i].depth > deepest {
          deepest := rows[i].depth;
        }
        assert Front(rows[..i + 1]) == rows[..i];
      }
      assert rows[..|rows|] == rows;
      DepthExactly(rows, caller);
      return deepest + 1;
    }

    /** `bus_call_admission_check`: true when the call is refused. */
    method AdmissionRefuses(caller: string) returns (refused: bool)
      ensures refused <==> !Admitted(limits, rows, caller)
      ensures !refused <==>
                |rows| < limits.maxInflight && exists depth :: NextDepth(rows, caller, depth) && depth <= limits.maxNesting
    {
      if |rows| >= limits.maxInflight {
        return true;
      }
      var depth := CallDepth(caller);
      OneNextDepth(rows, caller, depth);
      return depth > limits.maxNesting;
    }

    /** `bus_call_register` */
    method Register(caller: string, target: string, parent: Option<nat>, swarm: bool) returns (id: nat)
      modifies this`rows, this`nextId
      ensures State() == Registered(old(State()), caller, target, parent, swarm)
      ensures id == old(nextId) && nextId == id + 1
      ensures exists depth :: NextDepth(old(rows), caller, depth)
                && rows == old(rows) + [BusCall(id, caller, target, depth, parent, swarm)]
    {
      id := nextId;
      nextId := nextId + 1;
      var depth := CallDepth(caller);
      rows := rows + [BusCall(id, caller, target, depth, parent, swarm)];
    }

    /** `bus_call_resolve`: idempotent removal of one row. */
    method Resolve(id: nat)
      modifies this`rows
      ensures Step(limits, old(State()), Drop({id}), State())
    {
      var kept := [];
      for i := 0 to |rows|
        invariant rows == old(rows)
        invariant kept == Without(rows[..i], {id})
      {
        if rows[i].id != id {
          kept := kept + [rows[i]];
        }
        assert Front(rows[..i + 1]) == rows[..i];
      }
      assert rows[..|rows|] == rows;
      rows := kept;
    }

    /** `ask_agent` from the cycle check to the registration. Nothing in between
        awaits, so other calls see either the state before or the state after. */
    method TryAsk(owner: string, name: string, parent: Option<nat>) returns (reply: Reply)
      modifies this`rows, this`nextId
      ensures match reply
              case CycleRefused(path) =>
                && State() == old(State())
                && FindCycleSpec(Edges(rows), owner, name, limits.maxDepth, Some(path))
              case AdmissionRefused =>
                && State() == old(State())
                && !CycleVisible(Edges(rows), owner, name, limits.maxDepth)
                && !Admitted(limits, rows, owner)
              case InFlight(id) =>
                && Step(limits, old(State()), Ask(owner, name, parent), State())
                && id == old(nextId)
    {
      var cycle := FindCycle(Edges(rows), owner, name, limits.maxDepth);
      if cycle.Some? {
        return CycleRefused(cycle.value);
      }
      var refused := AdmissionRefuses(owner);
      if refused {
        return AdmissionRefused;
      }
      var id := Register(owner, name, parent, false);
      return InFlight(id);
    }

    /** `ask_agents` from the cycle check to the registration of the parent row.
        The parent row is registered without an admission check, and the children
        each go through `TryAsk` later. */
    method TryFanOut(owner: string, targets: seq<string>, swarmLabel: string) returns (reply: FanOutReply)
      modifies this`rows, this`nextId
      ensures match reply
              case FanOutRefused(offenders) =>
                && State() == old(State())
                && offenders != {}
                && offenders == set t | t in targets && CycleVisible(Edges(rows), owner, t, limits.maxDepth)
              case FannedOut(id) =>
                && Step(limits, old(State()), Fan(owner, targets, swarmLabel), State())
                && id == old(nextId)
    {
      var check := FindCyclesForEdges(Edges(rows), owner, targets, limits.maxDepth);
      var offenders := set t | t in check && check[t].Some?;
      if offenders != {} {
        return FanOutRefused(offenders);
      }
      forall t | t in targets ensures !CycleVisible(Edges(rows), owner, t, limits.maxDepth) {
        assert t in check;
        assert t !in offenders;
      }
      var id := Register(owner, swarmLabel, None, true);
      return FannedOut(id);
    }
  }
}
