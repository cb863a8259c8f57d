/** Exactly-once policy effects for repeated hook calls: `HookReplayCache` in
    `src/salient_core/daemon/_policy_hook_adapter.py:69-132`, driven as in
    `src/salient_core/daemon/_runner_factory.py:745-845`. */
module HookReplay {
  import opened Sequences
  import opened Wrappers

  /** The canonical form of an invocation. */
  type Fingerprint = string

  /** What a hook answers: nothing against the call, or a refusal. */
  datatype Verdict = Pass | Refuse(reason: string)

  datatype Entry = Entry(fingerprint: Fingerprint, ready: bool, outcome: Option<Verdict>)

  type Table = map<string, Entry>

  /** `Wait` is a caller that found the id owned by an equal invocation. */
  datatype Reservation = Owner | Wait | Rejected

  const WHITESPACE: set<char> := {' ', '\t', '\n', '\r'}
  const UNFINISHED := Refuse("the policy hook did not complete")

  /** A string that `strip` leaves nonempty; `None` is any other JSON value. */
  predicate UsableId(id: Option<string>) {
    id.Some? && exists i :: 0 <= i < |id.value| && id.value[i] !in WHITESPACE
  }

  // ---- The protocol, one atomic step at a time ----

  datatype Event =
    | Reserve(id: Option<string>, fingerprint: Fingerprint, reply: Reservation)
    | Complete(owned: string, verdict: Verdict)  // by the owner
    | Fail(owned: string)                        // by the owner, leaving its `finally`
    | Answer(owned: string, given: Option<Verdict>)   // a waiter wakes up and reads

  ghost predicate Step(capacity: int, t: Table, e: Event, u: Table) {
    match e
    case Reserve(id, fingerprint, reply) =>
      if !UsableId(id) then reply == Rejected && u == t
      else if id.value in t then
        u == t && reply == if t[id.value].fingerprint != fingerprint then Rejected else Wait
      else if |t| >= capacity then reply == Rejected && u == t
      else reply == Owner && u == t[id.value := Entry(fingerprint, false, None)]
    case Complete(id, verdict) =>
      id in t && u == t[id := t[id].(ready := true, outcome := Some(verdict))]
    case Fail(id) =>
      id in t && u == if t[id].ready then t else t[id := t[id].(ready := true, outcome := Some(UNFINISHED))]
    case Answer(id, given) =>
      id in t && t[id].ready && u == t && given == t[id].outcome
  }

  ghost predicate Run(capacity: int, states: seq<Table>, events: seq<Event>) {
    && |states| == |events| + 1 && states[0] == map[]
    && forall i | 0 <= i < |events| :: Step(capacity, states[i], events[i], states[i + 1])
  }

  // ---- What no interleaving can break ----

  ghost predicate WellKept(capacity: int, t: Table) {
    && (t == map[] || |t| <= capacity)
    && forall id | id in t :: t[id].ready <==> t[id].outcome.Some?
  }

  /** Every entry of `t` is still in `u`, for the same invocation, and stays answered once it is. */
  ghost predicate Remembers(t: Table, u: Table) {
    forall id | id in t :: id in u && u[id].fingerprint == t[id].fingerprint && (t[id].ready ==> u[id].ready)
  }

  lemma StepKeeps(capacity: int, t: Table, e: Event, u: Table)
    requires WellKept(capacity, t) && Step(capacity, t, e, u)
    ensures WellKept(capacity, u) && Remembers(t, u)
  {
    if e.Reserve? && e.reply == Owner {
      assert u.Keys == t.Keys + {e.id.value};
    } else if !e.Reserve? {
      assert u.Keys == t.Keys;
    }
    assert |u| == |u.Keys| && |t| == |t.Keys|;
  }

  /** The table never holds more than `capacity` ids, and an answer is there for
      every waiter that wakes up. */
  lemma {:induction false} RunKeeps(capacity: int, states: seq<Table>, events: seq<Event>, n: nat)
    requires Run(capacity, states, events) && n <= |events|
    ensures WellKept(capacity, states[n]) && (states[n] == map[] || |states[n]| <= capacity)
    ensures forall id | id in states[n] && states[n][id].ready :: states[n][id].outcome.Some?
    decreases n
  {
    if n > 0 {
      RunKeeps(capacity, states, events, n - 1);
      StepKeeps(capacity, states[n - 1], events[n - 1], states[n]);
    }
  }

  /** No id is ever forgotten, and its fingerprint never changes. */
  lemma {:induction false} NothingForgotten(capacity: int, states: seq<Table>, events: seq<Event>, m: nat, n: nat)
    requires Run(capacity, states, events) && m <= n <= |events|
    ensures Remembers(states[m], states[n])
    decreases n
  {
    if m < n {
      NothingForgotten(capacity, states, events, m, n - 1);
      RunKeeps(capacity, states, events, n - 1);
      StepKeeps(capacity, states[n - 1], events[n - 1], states[n]);
    }
  }

  /** In every interleaving an id has at most one owner, and every later call with
      that id waits for it if it is the same invocation, and is rejected otherwise. */
  lemma OneOwner(capacity: int, states: seq<Table>, events: seq<Event>, m: nat, n: nat)
    requires Run(capacity, states, events) && m < n < |events|
    requires events[m].Reserve? && events[m].reply == Owner
    requires events[n].Reserve? && events[n].id == events[m].id
    ensures events[n].reply == if events[n].fingerprint == events[m].fingerprint then Wait else Rejected
  {
    assert Step(capacity, states[m], events[m], states[m + 1]);
    NothingForgotten(capacity, states, events, m + 1, n);
    assert Step(capacity, states[n], events[n], states[n + 1]);
  }

  /** What becomes of a call, in every state: an unusable id is rejected, a known one
      waits if the invocation is the same and is rejected if not, and a new one becomes
      the owner of an unsettled entry exactly if there is room. */
  lemma ReservesExactly(capacity: int, t: Table, id: Option<string>, fingerprint: Fingerprint, reply: Reservation, u: Table)
    requires Step(capacity, t, Reserve(id, fingerprint, reply), u)
    ensures var usable := id.Some? && exists i :: 0 <= i < |id.value| && id.value[i] !in {' ', '\t', '\n', '\r'};
      && (reply == Owner <==> usable && id.value !in t && |t| < capacity)
      && (reply == Wait <==> usable && id.value in t && t[id.value].fingerprint == fingerprint)
    ensures if reply == Owner then u == t[id.value := Entry(fingerprint, false, None)] else u == t
  {
  }

  lemma {:induction false} FailedStays(capacity: int, states: seq<Table>, events: seq<Event>, id: string, m: nat, n: nat)
    requires Run(capacity, states, events) && m <= n <= |events|
    requires id in states[m] && states[m][id].ready && states[m][id].outcome == Some(UNFINISHED)
    requires forall i | m <= i < n :: !(events[i].Complete? && events[i].owned == id)
    ensures id in states[n] && states[n][id].ready && states[n][id].outcome == Some(UNFINISHED)
    decreases n
  {
    if m < n {
      FailedStays(capacity, states, events, id, m, n - 1);
      assert Step(capacity, states[n - 1], events[n - 1], states[n]);
    }
  }

  /** An owner that fails without having completed leaves a refusal: every waiter that
      wakes up afterwards is refused, unless somebody completes the entry after all. */
  lemma FailingRefuses(capacity: int, states: seq<Table>, events: seq<Event>, m: nat, n: nat)
    requires Run(capacity, states, events) && m < n < |events|
    requires events[m].Fail? && events[m].owned in states[m] && !states[m][events[m].owned].ready
    requires events[n].Answer? && events[n].owned == events[m].owned
    requires forall i | m < i < n :: !(events[i].Complete? && events[i].owned == events[m].owned)
    ensures events[n].given.Some? && events[n].given.value.Refuse?
  {
    assert Step(capacity, states[m], events[m], states[m + 1]);
    FailedStays(capacity, states, events, events[m].owned, m + 1, n);
    assert Step(capacity, states[n], events[n], states[n + 1]);
  }

  // ---- Agreement ----

  /** The discipline of the hook: the owner completes before it fails and never twice. */
  ghost predicate CompletesOnce(states: seq<Table>, events: seq<Event>, id: string)
    requires |states| == |events| + 1
  {
    forall i | 0 <= i < |events| && events[i].Complete? && events[i].owned == id ::
      id in states[i] && !states[i][id].ready
  }

  /** A step changes the answer of a settled id exactly when it completes that id
      again with another verdict. */
  lemma AnswerChangesExactly(capacity: int, t: Table, e: Event, u: Table, id: string)
    requires Step(capacity, t, e, u) && id in t && t[id].ready
    ensures u[id].outcome != t[id].outcome <==> e.Complete? && e.owned == id && Some(e.verdict) != t[id].outcome
  {
  }

  lemma {:induction false} SettledStays(capacity: int, states: seq<Table>, events: seq<Event>, id: string, m: nat, n: nat)
    requires Run(capacity, states, events) && CompletesOnce(states, events, id)
    requires m <= n <= |events| && id in states[m] && states[m][id].ready
    ensures id in states[n] && states[n][id] == states[m][id]
    decreases n
  {
    if m < n {
      SettledStays(capacity, states, events, id, m, n - 1);
      assert Step(capacity, states[n - 1], events[n - 1], states[n]);
    }
  }

  /** The verdict of the last `complete` of `id` among the events, if there is one. */
  function LastVerdict(events: seq<Event>, id: string): Option<Verdict> {
    if events == [] then None
    else if Last(events).Complete? && Last(events).owned == id then Some(Last(events).verdict)
    else LastVerdict(Front(events), id)
  }

  lemma {:induction false} SettledOutcome(capacity: int, states: seq<Table>, events: seq<Event>, id: string,
                                          m: nat, n: nat)
    requires Run(capacity, states, events)
    requires m <= n <= |events| && id in states[m] && states[m][id].ready
    ensures id in states[n] && states[n][id].ready
    ensures var last := LastVerdict(events[m..n], id);
      states[n][id].outcome == if last.Some? then last else states[m][id].outcome
    decreases n
  {
    if m < n {
      var k := n - 1;
      SettledOutcome(capacity, states, events, id, m, k);
      assert Step(capacity, states[k], events[k], states[n]);
      AnswerChangesExactly(capacity, states[k], events[k], states[n], id);
      assert Front(events[m..n]) == events[m..k] && Last(events[m..n]) == events[k];
    } else {
      assert events[m..n] == [];
    }
  }

  /** An entry is settled with the verdict of the last `complete` of its id, or else
      with a refusal; until then nobody has completed it. */
  lemma {:induction false} SettledByVerdict(capacity: int, states: seq<Table>, events: seq<Event>, id: string, n: nat)
    requires Run(capacity, states, events) && n <= |events|
    ensures var last := LastVerdict(events[..n], id);
      if id in states[n] && states[n][id].ready
      then states[n][id].outcome == if last.Some? then last else Some(UNFINISHED)
      else last.None?
    decreases n
  {
    if n > 0 {
      var k := n - 1;
      SettledByVerdict(capacity, states, events, id, k);
      assert Step(capacity, states[k], events[k], states[n]);
      assert Front(events[..n]) == events[..k] && Last(events[..n]) == events[k];
    }
  }

  /** In every run what a waiter hears is the verdict of the last `complete` of its id
      before it wakes up, and a refusal if there was none. */
  lemma AnswerIsTheVerdict(capacity: int, states: seq<Table>, events: seq<Event>, n: nat)
    requires Run(capacity, states, events) && n < |events| && events[n].Answer?
    ensures var last := LastVerdict(events[..n], events[n].owned);
      events[n].given.Some? && if last.Some? then events[n].given == last else events[n].given.value.Refuse?
  {
    assert Step(capacity, states[n], events[n], states[n + 1]);
    SettledByVerdict(capacity, states, events, events[n].owned, n);
  }

  /** In every run, two answers on one id agree exactly when the last `complete` of
      that id between them, if there is one, carries the first answer's verdict. */
  lemma AnswersAgreeExactly(capacity: int, states: seq<Table>, events: seq<Event>, id: string, m: nat, n: nat)
    requires Run(capacity, states, events) && m <= n < |events|
    requires events[m].Answer? && events[n].Answer? && events[m].owned == id && events[n].owned == id
    ensures var last := LastVerdict(events[m..n], id);
      events[n].given == events[m].given <==> last.None? || last == events[m].given
  {
    assert Step(capacity, states[m], events[m], states[m + 1]);
    assert Step(capacity, states[n], events[n], states[n + 1]);
    SettledOutcome(capacity, states, events, id, m, n);
  }

  /** All waiters on one id get one and the same answer, however they interleave
      with its owner. */
  lemma WaitersAgree(capacity: int, states: seq<Table>, events: seq<Event>, id: string, m: nat, n: nat)
    requires Run(capacity, states, events) && CompletesOnce(states, events, id)
    requires m <= n < |events|
    requires events[m].Answer? && events[n].Answer? && events[m].owned == id && events[n].owned == id
    ensures events[m].given.Some? && events[n].given == events[m].given
  {
    RunKeeps(capacity, states, events, m);
    assert Step(capacity, states[m], events[m], states[m + 1]);
    assert Step(capacity, states[n], events[n], states[n + 1]);
    SettledStays(capacity, states, events, id, m, n);
  }

  /** Without that discipline they need not: nothing stops a second `complete`. */
  lemma CompletingTwiceSplitsWaiters(id: string, first: Verdict, second: Verdict)
    requires UsableId(Some(id)) && first != second
    ensures exists states, events ::
      Run(1, states, events) && |events| == 5
      && events[2] == Answer(id, Some(first)) && events[4] == Answer(id, Some(second))
  {
    var t0: Table := map[];
    var t1 := t0[id := Entry("f", false, None)];
    var t2 := t1[id := Entry("f", true, Some(first))];
    var t4 := t1[id := Entry("f", true, Some(second))];
    assert t4 == t2[id := t2[id].(ready := true, outcome := Some(second))];
    var states := [t0, t1, t2, t2, t4, t4];
    var events := [Reserve(Some(id), "f", Owner), Complete(id, first), Answer(id, Some(first)),
                   Complete(id, second), Answer(id, Some(second))];
    forall i | 0 <= i < |events| ensures Step(1, states[i], events[i], states[i + 1]) {
    }
    assert Run(1, states, events);
  }

  // ---- The cache ----

  class HookReplayCache {
    const capacity: int
    var completed: Table

    constructor (capacity: int)
      ensures this.capacity == capacity && completed == map[]
    {
      this.capacity := capacity;
      completed := map[];
    }

    /** `reserve` up to the point where a waiter starts to wait. */
    method Reserve(id: Option<string>, fingerprint: Fingerprint) returns (reply: Reservation)
      modifies this
      ensures Step(capacity, old(completed), Event.Reserve(id, fingerprint, reply), completed)
    {
      if !UsableId(id) {
        return Rejected;
      }
      if id.value in completed {
        return if completed[id.value].fingerprint != fingerprint then Rejected else Wait;
      }
      if |completed| >= capacity {
        return Rejected;
      }
      completed := completed[id.value := Entry(fingerprint, false, None)];
      return Owner;
    }

    /** `reserve` from the point where the entry's event is set. */
    method Wake(id: string) returns (given: Option<Verdict>)
      requires id in completed && completed[id].ready
      ensures Step(capacity, completed, Answer(id, given), completed)
    {
      given := completed[id].outcome;
    }

    method Complete(owned: string, verdict: Verdict)
      requires owned in completed
      modifies this
      ensures Step(capacity, old(completed), Event.Complete(owned, verdict), completed)
    {
      completed := completed[owned := completed[owned].(ready := true, outcome := Some(verdict))];
    }

    method Fail(owned: string)
      requires owned in completed
      modifies this
      ensures Step(capacity, old(completed), Event.Fail(owned), completed)
    {
      if completed[owned].ready {
        return;
      }
      completed := completed[owned := completed[owned].(ready := true, outcome := Some(UNFINISHED))];
    }
  }
}
