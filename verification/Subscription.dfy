/** One subscriber of the event hub, from `subscribe` to its eviction: a bounded
    drop-oldest queue and the two tables that decide when it is dead
    (`src/salient_core/daemon/_event_hub.py:133-220`). */
module Subscription {
  import opened Sequences
  import opened Wrappers

  type Payload = string

  /** What a queue carries: published events, and the hub's notice of eviction. */
  datatype Frame = Event(payload: Payload) | Evicted(seqNo: int)

  datatype Config = Config(ringSize: nat, queueSize: nat, evictAfter: nat, floor: real) {
    predicate Valid() {
      1 <= ringSize && 1 <= queueSize && 1 <= evictAfter && 0.0 <= floor
    }
  }

  /** `streak` counts consecutive publishes that found the queue full (0 for no
      entry in `_full_streak`); `since` is the entry in `_full_since`. */
  datatype Sub = Sub(queue: seq<Frame>, streak: nat, since: Option<real>, live: bool)

  datatype Step =
    | Deliver(payload: Payload, now: real, check: real)  // `check` is the second reading of the clock
    | Take

  const FRESH := Sub([], 0, None, true)

  // ---- The machine ----

  predicate Full(cfg: Config, s: Sub) {
    |s.queue| >= cfg.queueSize
  }

  function Starving(cfg: Config, s: Sub, now: real): Sub {
    if Full(cfg, s)
    then s.(streak := s.streak + 1, since := if s.since.None? then Some(now) else s.since)
    else s.(streak := 0, since := None)
  }

  function Push(cfg: Config, s: Sub, payload: Payload): Sub
    requires cfg.Valid()
  {
    s.(queue := (if Full(cfg, s) then s.queue[1..] else s.queue) + [Event(payload)])
  }

  predicate StarvedLongEnough(cfg: Config, s: Sub, check: real) {
    cfg.floor <= 0.0 || (s.since.Some? && check - s.since.value >= cfg.floor)
  }

  predicate Dead(cfg: Config, s: Sub, check: real) {
    s.streak >= cfg.evictAfter && StarvedLongEnough(cfg, s, check)
  }

  /** `notice` is the sequence number the hub gives the eviction notice. */
  function Next(cfg: Config, s: Sub, step: Step, notice: int): Sub
    requires cfg.Valid()
  {
    match step
    case Take => if s.queue == [] then s else s.(queue := s.queue[1..])
    case Deliver(payload, now, check) =>
      if !s.live then s
      else
        var pushed := Push(cfg, Starving(cfg, s, now), payload);
        if Dead(cfg, pushed, check) then Sub([Evicted(notice)], 0, None, false) else pushed
  }

  // ---- What an observer of the run would write down ----

  /** `room`: free places when the consumer last made progress. `times`: when
      each event was published since then. */
  datatype Log = Log(published: seq<Payload>, received: seq<Payload>, dropped: nat, room: nat, times: seq<real>)

  function Record(cfg: Config, s: Sub, log: Log, step: Step): Log {
    match step
    case Take =>
      if s.queue == [] || !s.queue[0].Event? then log
      else
        log.(received := log.received + [s.queue[0].payload],
             room := if |s.queue| <= cfg.queueSize then cfg.queueSize - |s.queue| + 1 else 1,
             times := [])
    case Deliver(payload, now, _) =>
      if !s.live then log
      else
        log.(published := log.published + [payload],
             dropped := log.dropped + (if Full(cfg, s) then 1 else 0),
             times := log.times + [now])
  }

  function RunSub(cfg: Config, steps: seq<Step>, notice: int): Sub
    requires cfg.Valid()
  {
    if steps == [] then FRESH else Next(cfg, RunSub(cfg, Front(steps), notice), Last(steps), notice)
  }

  function RunLog(cfg: Config, steps: seq<Step>, notice: int): Log
    requires cfg.Valid()
  {
    if steps == [] then Log([], [], 0, cfg.queueSize, [])
    else Record(cfg, RunSub(cfg, Front(steps), notice), RunLog(cfg, Front(steps), notice), Last(steps))
  }

  function Events(payloads: seq<Payload>): (frames: seq<Frame>)
    ensures |frames| == |payloads| && forall i | 0 <= i < |frames| :: frames[i] == Event(payloads[i])
  {
    seq(|payloads|, i requires 0 <= i < |payloads| => Event(payloads[i]))
  }

  // ---- Invariants of every run ----

  /** A live queue holds the most recently published events and nothing else. */
  ghost predicate QueueIsSuffix(cfg: Config, s: Sub, log: Log) {
    && |s.queue| <= cfg.queueSize
    && |log.received| + log.dropped + |s.queue| == |log.published|
    && s.queue == Events(log.published[|log.published| - |s.queue|..])
    && (log.dropped == 0 ==> Events(log.received) + s.queue == Events(log.published))
  }

  /** The two tables say what the log says about the time since the last progress. */
  ghost predicate TablesMatchLog(cfg: Config, s: Sub, log: Log) {
    && 1 <= log.room <= cfg.queueSize
    && |s.queue| == Min(cfg.queueSize, cfg.queueSize - log.room + |log.times|)
    && (s.streak == 0 <==> s.since.None?)
    && (log.times != [] ==>
          if |log.times| > log.room
          then s.streak == |log.times| - log.room && s.since == Some(log.times[log.room])
          else s.streak == 0)
  }

  ghost predicate Inv(cfg: Config, s: Sub, log: Log) {
    s.live ==> QueueIsSuffix(cfg, s, log) && TablesMatchLog(cfg, s, log)
  }

  lemma PushKeepsSuffix(cfg: Config, s: Sub, log: Log, step: Step)
    requires cfg.Valid() && s.live && QueueIsSuffix(cfg, s, log) && step.Deliver?
    ensures QueueIsSuffix(cfg, Push(cfg, Starving(cfg, s, step.now), step.payload), Record(cfg, s, log, step))
  {
    var t := Push(cfg, Starving(cfg, s, step.now), step.payload);
    var before, after := log.published, log.published + [step.payload];
    var m := |before| - |s.queue|;
    if Full(cfg, s) {
      assert after[m + 1..] == before[m + 1..] + [step.payload];
      assert t.queue == Events(after[m + 1..]);
    } else {
      assert after[m..] == before[m..] + [step.payload];
      assert t.queue == Events(after[m..]);
      if log.dropped == 0 {
        assert Events(log.received) + t.queue == Events(after);
      }
    }
  }

  lemma TakeKeepsSuffix(cfg: Config, s: Sub, log: Log)
    requires cfg.Valid() && s.live && QueueIsSuffix(cfg, s, log)
    ensures QueueIsSuffix(cfg, Next(cfg, s, Take, 0), Record(cfg, s, log, Take))
    ensures s.queue != [] ==> s.queue[0] == Event(log.published[|log.published| - |s.queue|])
  {
    if s.queue != [] {
      var n := |log.published| - |s.queue|;
      assert s.queue[0] == Event(log.published[n]);
      assert log.published[n..][1..] == log.published[n + 1..];
      assert Events(log.received + [log.published[n]]) == Events(log.received) + [s.queue[0]];
      assert (Events(log.received) + [s.queue[0]]) + s.queue[1..] == Events(log.received) + s.queue;
    }
  }

  lemma PushKeepsTables(cfg: Config, s: Sub, log: Log, step: Step)
    requires cfg.Valid() && s.live && TablesMatchLog(cfg, s, log) && step.Deliver?
    ensures TablesMatchLog(cfg, Push(cfg, Starving(cfg, s, step.now), step.payload), Record(cfg, s, log, step))
  {
  }

  lemma StepKeepsInv(cfg: Config, s: Sub, log: Log, step: Step, notice: int)
    requires cfg.Valid() && Inv(cfg, s, log)
    ensures Inv(cfg, Next(cfg, s, step, notice), Record(cfg, s, log, step))
  {
    if s.live {
      match step {
        case Take => TakeKeepsSuffix(cfg, s, log);
        case Deliver(_, _, _) =>
          PushKeepsSuffix(cfg, s, log, step);
          PushKeepsTables(cfg, s, log, step);
      }
    }
  }

  /** While it is subscribed, a consumer's queue is a bounded suffix of what was
      published since it subscribed, every event is received, queued or dropped
      exactly once, one that never fills its queue misses nothing, and the two
      tables measure the time since its last progress. */
  lemma {:induction false} RunKeepsInv(cfg: Config, steps: seq<Step>, notice: int)
    requires cfg.Valid()
    ensures Inv(cfg, RunSub(cfg, steps, notice), RunLog(cfg, steps, notice))
  {
    if steps == [] {
      assert Events([]) == [];
    } else {
      RunKeepsInv(cfg, Front(steps), notice);
      StepKeepsInv(cfg, RunSub(cfg, Front(steps), notice), RunLog(cfg, Front(steps), notice), Last(steps), notice);
    }
  }

  // ---- Eviction ----

  /** A publish evicts a consumer exactly when, since its last progress, its free
      places have been used up and then `evictAfter` more events published, the
      first of them at least `floor` ago. */
  lemma EvictedExactly(cfg: Config, steps: seq<Step>, payload: Payload, now: real, check: real, notice: int)
    requires cfg.Valid() && RunSub(cfg, steps, notice).live
    ensures var log := RunLog(cfg, steps, notice);
      var times := log.times + [now];
      !Next(cfg, RunSub(cfg, steps, notice), Deliver(payload, now, check), notice).live <==>
        && |times| >= log.room + cfg.evictAfter
        && (cfg.floor <= 0.0 || check - times[log.room] >= cfg.floor)
  {
    RunKeepsInv(cfg, steps, notice);
    var s, log := RunSub(cfg, steps, notice), RunLog(cfg, steps, notice);
    var step := Deliver(payload, now, check);
    PushKeepsTables(cfg, s, log, step);
  }

  lemma {:induction false} DeadStaysDead(cfg: Config, s: Sub, step: Step, notice: int)
    requires cfg.Valid() && !s.live && s.queue in [[], [Evicted(notice)]]
    ensures var t := Next(cfg, s, step, notice);
      !t.live && t.queue in [[], [Evicted(notice)]] && (step.Deliver? ==> t == s)
  {
    if s.queue == [Evicted(notice)] {
      assert s.queue[1..] == [];
    }
  }

  /** An evicted consumer finds the notice and nothing else, once. */
  lemma {:induction false} EvictedSeesTheNotice(cfg: Config, steps: seq<Step>, notice: int)
    requires cfg.Valid() && !RunSub(cfg, steps, notice).live
    ensures RunSub(cfg, steps, notice).queue in [[], [Evicted(notice)]]
    ensures steps != [] && RunSub(cfg, Front(steps), notice).live ==>
              RunSub(cfg, steps, notice).queue == [Evicted(notice)]
  {
    if steps != [] && !RunSub(cfg, Front(steps), notice).live {
      EvictedSeesTheNotice(cfg, Front(steps), notice);
      DeadStaysDead(cfg, RunSub(cfg, Front(steps), notice), Last(steps), notice);
    }
  }
}
