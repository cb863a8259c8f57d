/** The per-agent cap on tracked events: `_prune_events` and the counter in
    `record_event` (`src/salient_core/bus/_context_store.py:496-546, 744-805`). */
module EventRetention {
  import opened Sequences
  import opened Transactions

  datatype Event = Event(agent: string, ts: real, content: string)

  /** The `events` table, by row id. */
  type Events = map<nat, Event>

  function Of(events: Events, agent: string): set<nat> {
    set r | r in events && events[r].agent == agent
  }

  function Agents(events: Events): set<string> {
    set r | r in events :: events[r].agent
  }

  // ---- One sweep ----

  /** `victims` are `n` of the agent's rows, none newer than a row that stays.
      Equal timestamps are broken either way. */
  ghost predicate Oldest(events: Events, agent: string, n: nat, victims: set<nat>) {
    && victims <= Of(events, agent) && |victims| == n
    && forall i, j | i in victims && j in Of(events, agent) - victims :: events[i].ts <= events[j].ts
  }

  /** What a sweep leaves of one agent's rows: `min(count, cap)` of them, no
      removed row newer than one that stays. */
  ghost predicate TrimmedFor(cap: nat, before: Events, after: Events, agent: string) {
    && Of(after, agent) <= Of(before, agent)
    && |Of(after, agent)| == Min(|Of(before, agent)|, cap)
    && forall i, j | i in Of(before, agent) - Of(after, agent) && j in Of(after, agent) ::
         before[i].ts <= before[j].ts
  }

  ghost predicate Within(after: Events, before: Events) {
    forall r | r in after :: r in before && after[r] == before[r]
  }

  ghost predicate Trimmed(cap: nat, before: Events, after: Events) {
    Within(after, before) && forall agent :: TrimmedFor(cap, before, after, agent)
  }

  lemma {:induction false} HasOldest(events: Events, rows: set<nat>) returns (r: nat)
    requires rows != {} && rows <= events.Keys
    ensures r in rows && forall q | q in rows :: events[r].ts <= events[q].ts
    decreases |rows|
  {
    r :| r in rows;
    if rows != {r} {
      var rest := rows - {r};
      assert rest == {} ==> rows == {r};
      var s := HasOldest(events, rest);
      assert forall q | q in rows :: q == r || q in rest;
      r := if events[r].ts <= events[s].ts then r else s;
    }
  }

  /** `SELECT rowid ... ORDER BY ts ASC LIMIT n`. */
  method SelectOldest(events: Events, agent: string, n: nat) returns (victims: set<nat>)
    requires n <= |Of(events, agent)|
    ensures Oldest(events, agent, n, victims)
  {
    victims := {};
    var rest := Of(events, agent);
    while |victims| < n
      invariant victims + rest == Of(events, agent) && victims !! rest && |victims| <= n
      invariant forall i, j | i in victims && j in rest :: events[i].ts <= events[j].ts
    {
      assert |victims + rest| == |victims| + |rest|;
      ghost var first := HasOldest(events, rest);
      var r :| r in rest && forall q | q in rest :: events[r].ts <= events[q].ts;
      victims := victims + {r};
      rest := rest - {r};
    }
    assert Of(events, agent) - victims == rest;
  }

  /** The agents in `done` have been trimmed, the others not touched. */
  ghost predicate PartlyTrimmed(cap: nat, before: Events, after: Events, todo: set<string>) {
    && Within(after, before)
    && forall agent ::
         if agent in todo then Of(after, agent) == Of(before, agent) else TrimmedFor(cap, before, after, agent)
  }

  lemma DroppedRows(rows: Events, agent: string, victims: set<nat>)
    requires victims <= Of(rows, agent)
    ensures Of(rows - victims, agent) == Of(rows, agent) - victims
    ensures |Of(rows - victims, agent)| == |Of(rows, agent)| - |victims|
    ensures forall other | other != agent :: Of(rows - victims, other) == Of(rows, other)
  {
    assert Of(rows, agent) == victims + Of(rows - victims, agent);
  }

  lemma TrimOne(cap: nat, before: Events, rows: Events, todo: set<string>, agent: string, victims: set<nat>)
    requires PartlyTrimmed(cap, before, rows, todo) && agent in todo
    requires |Of(rows, agent)| > cap && Oldest(rows, agent, |Of(rows, agent)| - cap, victims)
    ensures PartlyTrimmed(cap, before, rows - victims, todo - {agent})
  {
    var after := rows - victims;
    DroppedRows(rows, agent, victims);
    assert TrimmedFor(cap, before, after, agent);
    forall other | other !in todo ensures TrimmedFor(cap, before, after, other) {
      assert Of(after, other) == Of(rows, other);
    }
  }

  lemma NothingOver(cap: nat, events: Events, over: set<string>)
    requires over == set agent | agent in Agents(events) && |Of(events, agent)| > cap
    ensures PartlyTrimmed(cap, events, events, over)
    ensures forall agent | agent in over :: |Of(events, agent)| > cap
  {
    forall agent | agent !in over ensures TrimmedFor(cap, events, events, agent) {
      if agent !in Agents(events) {
        assert forall r | r in events :: events[r].agent in Agents(events);
        assert Of(events, agent) == {};
      }
    }
  }

  /** The statements `_prune_events` runs inside its transaction. */
  method Trim(cap: nat, events: Events) returns (rows: Events)
    ensures Trimmed(cap, events, rows)
  {
    var over := set agent | agent in Agents(events) && |Of(events, agent)| > cap;
    rows := events;
    NothingOver(cap, events, over);
    var todo := over;
    while todo != {}
      invariant todo <= over
      invariant PartlyTrimmed(cap, events, rows, todo)
      decreases |todo|
    {
      var agent :| agent in todo;
      assert Of(rows, agent) == Of(events, agent) && |Of(events, agent)| > cap;
      var victims := SelectOldest(rows, agent, |Of(rows, agent)| - cap);
      TrimOne(cap, events, rows, todo, agent, victims);
      rows := rows - victims;
      todo := todo - {agent};
    }
  }

  // ---- A run of record_event ----

  /** `missed`: the sweeps that failed since the last one that took effect. `torn`:
      the sweeps that were interrupted since the counter was last reset; each leaves
      it as it stands. `slack`: what the counter does not account for since the last
      sweep that took effect, namely the inserts that raised although they took
      effect, and the torn sweeps before the last reset. */
  datatype Tracked = Tracked(events: Events, sincePrune: nat, missed: nat, torn: nat, slack: nat)

  /** One call, and how its two transactions would end. */
  datatype Call = Call(event: Event, insert: Outcome, sweep: Outcome)

  ghost predicate Appended(before: Events, after: Events, event: Event) {
    exists r: nat :: r !in before && after == before[r := event]
  }

  ghost predicate Recorded(cap: int, interval: nat, s: Tracked, call: Call, t: Tracked) {
    if !call.insert.landed then t == s
    else exists mid ::
           && Appended(s.events, mid, call.event)
           && if call.insert.Silent() then t == s.(events := mid, slack := s.slack + 1)
              else Counted(cap, interval, s, mid, call.sweep, t)
  }

  /** What happens after the insert that led to `mid` returned: every `interval`
      inserts a sweep, and the counter is reset unless the sweep was interrupted. */
  ghost predicate Counted(cap: int, interval: nat, s: Tracked, mid: Events, sweep: Outcome, t: Tracked) {
    if s.sincePrune + 1 < interval then t == s.(events := mid, sincePrune := s.sincePrune + 1)
    else if cap <= 0 then t == s.(events := mid, sincePrune := 0, torn := 0)
    else
      && (if sweep.landed then Trimmed(cap, mid, t.events) else t.events == mid)
      && t == if sweep.ending.Interrupted?
              then Tracked(t.events, s.sincePrune + 1, if sweep.landed then 0 else s.missed, s.torn + 1,
                           if sweep.landed then 0 else s.slack)
              else Tracked(t.events, 0, if sweep.landed then 0 else s.missed + 1, 0,
                           if sweep.landed then 0 else s.slack + s.torn)
  }

  /** What a sweep that ends in `sweep` does before the counter is reset. `end` is
      what its caller sees: database errors are swallowed. */
  ghost predicate Swept(cap: nat, s: Tracked, sweep: Outcome, end: Ending, t: Tracked) {
    && end == (if sweep.ending.Interrupted? then Interrupted else Returned)
    && t.sincePrune == s.sincePrune
    && (if sweep.landed then Trimmed(cap, s.events, t.events) else t.events == s.events)
    && t.missed == (if sweep.landed then 0 else if end.Returned? then s.missed + 1 else s.missed)
    && t.slack == (if sweep.landed then 0 else if end.Returned? then s.slack + s.torn else s.slack)
    && t.torn == (if end.Interrupted? then s.torn + 1 else s.torn)
  }

  lemma SweptIsCounted(cap: int, interval: nat, s: Tracked, mid: Events, counted: Tracked, sweep: Outcome, end: Ending,
                       swept: Tracked, t: Tracked)
    requires s.sincePrune + 1 >= interval
    requires counted == s.(events := mid, sincePrune := s.sincePrune + 1)
    requires if cap > 0 then Swept(cap, counted, sweep, end, swept) else swept == counted && end.Returned?
    requires t == if end.Returned? then swept.(sincePrune := 0, torn := 0) else swept
    ensures Counted(cap, interval, s, mid, sweep, t)
  {
  }

  ghost predicate Run(cap: int, interval: nat, states: seq<Tracked>, calls: seq<Call>) {
    && |states| == |calls| + 1
    && forall i | 0 <= i < |calls| :: Recorded(cap, interval, states[i], calls[i], states[i + 1])
  }

  ghost predicate Bounded(cap: nat, interval: nat, s: Tracked) {
    && s.sincePrune < interval + s.torn
    && forall agent :: |Of(s.events, agent)| <= cap + s.sincePrune + interval * s.missed + s.slack
  }

  lemma OfUpdated(before: Events, r: nat, event: Event, agent: string)
    requires r !in before
    ensures Of(before[r := event], agent) == Of(before, agent) + (if agent == event.agent then {r} else {})
  {
  }

  lemma AppendedGrowsByOne(before: Events, after: Events, event: Event, agent: string)
    requires Appended(before, after, event)
    ensures |Of(after, agent)| == |Of(before, agent)| + (if agent == event.agent then 1 else 0)
  {
    var r: nat :| r !in before && after == before[r := event];
    OfUpdated(before, r, event, agent);
  }

  lemma SweepKeepsBound(cap: nat, interval: nat, s: Tracked, mid: Events, sweep: Outcome, t: Tracked)
    requires cap > 0 && interval > 0 && s.sincePrune < interval + s.torn
    requires forall agent :: |Of(mid, agent)| <= cap + s.sincePrune + 1 + interval * s.missed + s.slack
    requires Counted(cap, interval, s, mid, sweep, t)
    ensures Bounded(cap, interval, t)
  {
    assert interval * (s.missed + 1) == interval * s.missed + interval;
    forall agent ensures |Of(t.events, agent)| <= cap + t.sincePrune + interval * t.missed + t.slack {
      assert |Of(mid, agent)| <= cap + s.sincePrune + 1 + interval * s.missed + s.slack;
      if s.sincePrune + 1 >= interval && sweep.landed {
        assert TrimmedFor(cap, mid, t.events, agent);
      }
    }
  }

  lemma CallKeepsBound(cap: nat, interval: nat, s: Tracked, call: Call, t: Tracked)
    requires cap > 0 && interval > 0 && Bounded(cap, interval, s) && Recorded(cap, interval, s, call, t)
    ensures Bounded(cap, interval, t)
  {
    if call.insert.landed {
      var mid :| Appended(s.events, mid, call.event)
              && if call.insert.Silent() then t == s.(events := mid, slack := s.slack + 1)
                 else Counted(cap, interval, s, mid, call.sweep, t);
      forall agent ensures |Of(mid, agent)| <= cap + s.sincePrune + 1 + interval * s.missed + s.slack {
        AppendedGrowsByOne(s.events, mid, call.event, agent);
      }
      if !call.insert.Silent() {
        SweepKeepsBound(cap, interval, s, mid, call.sweep, t);
      }
    }
  }

  /** From a store within the cap, in every run, no agent ever holds more than
      `cap` rows plus those counted since the last sweep, plus one interval for
      every sweep that failed since the last one that took effect, plus one for every
      insert or sweep since then that an interrupt kept from being counted: while
      nothing fails, at most `cap + interval - 1` after any call. */
  lemma {:induction false} GrowthIsBounded(cap: nat, interval: nat, states: seq<Tracked>, calls: seq<Call>, agent: string)
    requires cap > 0 && interval > 0 && Run(cap, interval, states, calls)
    requires states[0] == Tracked(states[0].events, 0, 0, 0, 0)
    requires forall a :: |Of(states[0].events, a)| <= cap
    ensures Bounded(cap, interval, Last(states))
    ensures var s := Last(states);
      s.missed == s.torn == s.slack == 0 ==> |Of(s.events, agent)| <= cap + interval - 1
    decreases |calls|
  {
    if calls != [] {
      var prior := Front(states);
      assert Run(cap, interval, prior, Front(calls));
      GrowthIsBounded(cap, interval, prior, Front(calls), agent);
      CallKeepsBound(cap, interval, Last(prior), Last(calls), Last(states));
    }
    var s := Last(states);
    assert |Of(s.events, agent)| <= cap + s.sincePrune + interval * s.missed + s.slack;
  }

  /** How many of the calls added an event of the agent. */
  function Landed(calls: seq<Call>, agent: string): nat {
    if calls == [] then 0
    else Landed(Front(calls), agent) + if Last(calls).insert.landed && Last(calls).event.agent == agent then 1 else 0
  }

  lemma CallKeepsNewest(cap: nat, interval: nat, s: Tracked, call: Call, t: Tracked, agent: string)
    requires cap > 0 && Recorded(cap, interval, s, call, t)
    ensures |Of(t.events, agent)| >=
            Min(cap, |Of(s.events, agent)| + if call.insert.landed && call.event.agent == agent then 1 else 0)
    ensures s.sincePrune + 1 < interval ==> Within(s.events, t.events) && t.sincePrune <= s.sincePrune + 1
  {
    if call.insert.landed {
      var mid :| Appended(s.events, mid, call.event)
              && if call.insert.Silent() then t == s.(events := mid, slack := s.slack + 1)
                 else Counted(cap, interval, s, mid, call.sweep, t);
      AppendedGrowsByOne(s.events, mid, call.event, agent);
      if t.events != mid {
        assert TrimmedFor(cap, mid, t.events, agent);
      }
    }
  }

  /** A sweep takes nothing that is within the cap: in every run an agent has at least
      `cap` rows, or all it ever had. */
  lemma {:induction false} CapIsKept(cap: nat, interval: nat, states: seq<Tracked>, calls: seq<Call>, agent: string)
    requires cap > 0 && Run(cap, interval, states, calls)
    ensures |Of(Last(states).events, agent)| >= Min(cap, |Of(states[0].events, agent)| + Landed(calls, agent))
    decreases |calls|
  {
    if calls != [] {
      var prior := Front(states);
      assert Run(cap, interval, prior, Front(calls));
      CapIsKept(cap, interval, prior, Front(calls), agent);
      assert Recorded(cap, interval, Last(prior), Last(calls), Last(states));
      CallKeepsNewest(cap, interval, Last(prior), Last(calls), Last(states), agent);
    }
  }

  /** And it waits for its turn: until `interval` calls have been made every row is kept. */
  lemma {:induction false} KeptUntilInterval(cap: nat, interval: nat, states: seq<Tracked>, calls: seq<Call>)
    requires cap > 0 && Run(cap, interval, states, calls) && states[0].sincePrune == 0 && |calls| < interval
    ensures Within(states[0].events, Last(states).events) && Last(states).sincePrune <= |calls|
    decreases |calls|
  {
    if calls != [] {
      var prior := Front(states);
      assert Run(cap, interval, prior, Front(calls));
      KeptUntilInterval(cap, interval, prior, Front(calls));
      assert Recorded(cap, interval, Last(prior), Last(calls), Last(states));
      CallKeepsNewest(cap, interval, Last(prior), Last(calls), Last(states), "");
    }
  }

  /** With the cap switched off no row is ever removed. */
  lemma {:induction false} NoCapKeepsAll(cap: int, interval: nat, states: seq<Tracked>, calls: seq<Call>)
    requires cap <= 0 && Run(cap, interval, states, calls)
    ensures Within(states[0].events, Last(states).events)
    decreases |calls|
  {
    if calls != [] {
      var prior := Front(states);
      assert Run(cap, interval, prior, Front(calls));
      NoCapKeepsAll(cap, interval, prior, Front(calls));
      assert Recorded(cap, interval, Last(prior), Last(calls), Last(states));
    }
  }
}
