/** The hub that fans published events out to its subscribers:
    `EventHub` in `src/salient_core/daemon/_event_hub.py:70-220`. */
module EventHub {
  import opened Sequences
  import opened Wrappers
  import opened Subscription

  type QueueId = nat

  /** The hub's bookkeeping. `queues` holds every queue handed out, also after
      its subscriber left. */
  datatype Tables = Tables(subs: seq<QueueId>, queues: map<QueueId, seq<Frame>>,
                           streak: map<QueueId, nat>, since: map<QueueId, real>)

  ghost predicate Consistent(cfg: Config, t: Tables) {
    && Distinct(t.subs)
    && (forall q | q in t.subs :: q in t.queues)
    && t.streak.Keys == t.since.Keys
    && (forall q | q in t.streak :: q in t.subs && t.streak[q] > 0)
  }

  /** The tables as one subscriber sees them. */
  ghost function View(t: Tables, q: QueueId): Sub
    requires q in t.queues
  {
    Sub(t.queues[q], if q in t.streak then t.streak[q] else 0,
        if q in t.since then Some(t.since[q]) else None, q in t.subs)
  }

  ghost predicate Shows(t: Tables, views: map<QueueId, Sub>) {
    views.Keys == t.queues.Keys && forall q | q in views :: views[q] == View(t, q)
  }

  /** `t` without `q`: `_subs.remove(q)` and both `pop`s. */
  ghost predicate Dropped(t: Tables, u: Tables, q: QueueId) {
    && Distinct(u.subs) && q !in u.subs && (forall p | p != q :: p in u.subs <==> p in t.subs)
    && u == Tables(u.subs, t.queues, t.streak - {q}, t.since - {q})
  }

  lemma DroppedChanges(cfg: Config, t: Tables, u: Tables, q: QueueId, views: map<QueueId, Sub>)
    requires Consistent(cfg, t) && Shows(t, views) && q in views && Dropped(t, u, q)
    ensures Consistent(cfg, u) && Shows(u, views[q := Sub(t.queues[q], 0, None, false)])
  {
  }

  /** What `publish` does to a subscriber before it looks at the eviction rule. */
  ghost predicate Offered(cfg: Config, t: Tables, u: Tables, q: QueueId, payload: Payload, now: real)
    requires q in t.queues
  {
    if |t.queues[q]| >= cfg.queueSize && t.queues[q] != [] then
      u == Tables(t.subs, t.queues[q := t.queues[q][1..] + [Event(payload)]],
                  t.streak[q := View(t, q).streak + 1],
                  t.since[q := if q in t.since then t.since[q] else now])
    else
      u == Tables(t.subs, t.queues[q := t.queues[q] + [Event(payload)]], t.streak - {q}, t.since - {q})
  }

  lemma OfferedKeepsConsistent(cfg: Config, t: Tables, u: Tables, q: QueueId, payload: Payload, now: real)
    requires cfg.Valid() && Consistent(cfg, t) && q in t.subs && Offered(cfg, t, u, q, payload, now)
    ensures Consistent(cfg, u) && q in u.queues && u.subs == t.subs
  {
  }

  lemma OfferedIsPush(cfg: Config, t: Tables, u: Tables, q: QueueId, payload: Payload, now: real)
    requires cfg.Valid() && Consistent(cfg, t) && q in t.subs && Offered(cfg, t, u, q, payload, now)
    ensures q in u.queues && View(u, q) == Push(cfg, Starving(cfg, View(t, q), now), payload)
  {
  }

  lemma OfferedShows(cfg: Config, t: Tables, u: Tables, q: QueueId, views: map<QueueId, Sub>, payload: Payload, now: real)
    requires Shows(t, views) && q in t.queues && Offered(cfg, t, u, q, payload, now)
    ensures q in u.queues && Shows(u, views[q := View(u, q)])
  {
  }

  /** `t` after the eviction of `q`. */
  ghost predicate EvictedFrom(t: Tables, u: Tables, q: QueueId, notice: int) {
    exists v :: Dropped(t, v, q) && u == v.(queues := v.queues[q := [Evicted(notice)]])
  }

  lemma EvictedChanges(cfg: Config, t: Tables, u: Tables, q: QueueId, views: map<QueueId, Sub>, notice: int)
    requires Consistent(cfg, t) && Shows(t, views) && q in views && EvictedFrom(t, u, q, notice)
    ensures Consistent(cfg, u) && Shows(u, views[q := Sub([Evicted(notice)], 0, None, false)])
  {
  }

  /** One turn of the loop in `publish`, by way of the tables `u` that `q`'s offer leaves. */
  lemma DeliveredChanges(cfg: Config, t: Tables, u: Tables, v: Tables, q: QueueId, views: map<QueueId, Sub>,
                         step: Step, notice: int)
    requires cfg.Valid() && Consistent(cfg, t) && Shows(t, views) && q in t.subs && q in views && step.Deliver?
    requires Offered(cfg, t, u, q, step.payload, step.now) && q in u.queues
    requires if Dead(cfg, View(u, q), step.check) then EvictedFrom(u, v, q, notice) else v == u
    ensures var s := Next(cfg, views[q], step, notice);
      Consistent(cfg, v) && Shows(v, views[q := s]) && (s.live <==> !Dead(cfg, View(u, q), step.check))
  {
    OfferedKeepsConsistent(cfg, t, u, q, step.payload, step.now);
    OfferedIsPush(cfg, t, u, q, step.payload, step.now);
    OfferedShows(cfg, t, u, q, views, step.payload, step.now);
    var offered := View(u, q);
    NextByOffer(cfg, views[q], step, notice);
    if Dead(cfg, offered, step.check) {
      EvictedChanges(cfg, u, v, q, views[q := offered], notice);
      OverwrittenTwice(views, q, offered, Sub([Evicted(notice)], 0, None, false));
    }
  }

  lemma NextByOffer(cfg: Config, s: Sub, step: Step, notice: int)
    requires cfg.Valid() && step.Deliver? && s.live
    ensures var offered := Push(cfg, Starving(cfg, s, step.now), step.payload);
      Next(cfg, s, step, notice) ==
      if Dead(cfg, offered, step.check) then Sub([Evicted(notice)], 0, None, false) else offered
    ensures Push(cfg, Starving(cfg, s, step.now), step.payload).live
  {
  }

  lemma OverwrittenTwice<K, V>(m: map<K, V>, k: K, v: V, w: V)
    ensures m[k := v][k := w] == m[k := w]
  {
  }

  lemma SubscribedChanges(cfg: Config, t: Tables, q: QueueId, views: map<QueueId, Sub>)
    requires Consistent(cfg, t) && Shows(t, views) && q !in t.queues
    ensures var u := t.(subs := t.subs + [q], queues := t.queues[q := []]);
      Consistent(cfg, u) && Shows(u, views[q := FRESH])
  {
    assert q !in t.subs && q !in t.streak;
  }

  lemma ReceivedChanges(cfg: Config, t: Tables, q: QueueId, views: map<QueueId, Sub>)
    requires cfg.Valid() && Consistent(cfg, t) && Shows(t, views) && q in views && t.queues[q] != []
    ensures var u := t.(queues := t.queues[q := t.queues[q][1..]]);
      Consistent(cfg, u) && Shows(u, views[q := Next(cfg, views[q], Take, 0)])
  {
  }

  // ---- The hub as one machine ----

  /** Every queue ever handed out, as its own machine has it, and the last number
      given to an eviction notice. */
  datatype HubState = HubState(views: map<QueueId, Sub>, sentinel: int)

  datatype HubEvent =
    | Joined(q: QueueId)
    | Left(q: QueueId)
    | Received(q: QueueId)
    | Sent(payload: Payload, now: real, check: real)

  const EMPTY_HUB := HubState(map[], 0)

  ghost predicate HubStep(cfg: Config, s: HubState, e: HubEvent, t: HubState)
    requires cfg.Valid()
  {
    match e
    case Joined(q) =>
      q !in s.views && t == s.(views := s.views[q := FRESH])
    case Left(q) =>
      q in s.views && t == s.(views := s.views[q := Sub(s.views[q].queue, 0, None, false)])
    case Received(q) =>
      && q in s.views && s.views[q].queue != []
      && t == s.(views := s.views[q := Next(cfg, s.views[q], Take, 0)])
    case Sent(payload, now, check) =>
      && EachSteps(cfg, s.views, t.views, Deliver(payload, now, check))
      && Numbered(s.views, t.views, t.sentinel, s.sentinel)
  }

  /** Every queue has taken one step of its machine; those that left do not move. */
  ghost predicate EachSteps(cfg: Config, before: map<QueueId, Sub>, after: map<QueueId, Sub>, step: Step)
    requires cfg.Valid()
  {
    && after.Keys == before.Keys
    && forall q | q in before :: after[q] == Next(cfg, before[q], step, NoticeOf(after[q]))
  }

  lemma SubscribersAreLive(cfg: Config, t: Tables, before: map<QueueId, Sub>, after: map<QueueId, Sub>, step: Step)
    requires cfg.Valid() && step.Deliver? && Shows(t, before) && Stepped(cfg, before, after, t.subs, step)
    ensures EachSteps(cfg, before, after, step)
  {
  }

  class Hub {
    const cfg: Config
    var subs: seq<QueueId>
    var queues: map<QueueId, seq<Frame>>
    var fullStreak: map<QueueId, nat>
    var fullSince: map<QueueId, real>
    var ring: seq<Payload>
    var sentinelSeq: int
    ghost var forgotten: seq<Payload>  // what the ring no longer holds
    ghost var views: map<QueueId, Sub>  // each queue's state as its own machine has it

    ghost function Now(): Tables
      reads `subs, `queues, `fullStreak, `fullSince
    {
      Tables(subs, queues, fullStreak, fullSince)
    }

    /** Every event published so far. */
    ghost function Published(): seq<Payload>
      reads `ring, `forgotten
    {
      forgotten + ring
    }

    /** The ring holds the last `ringSize` events published, or all of them. */
    ghost predicate RingIsRecent()
      reads `ring, `forgotten
    {
      |ring| <= cfg.ringSize && (forgotten == [] || |ring| == cfg.ringSize)
    }

    ghost function State(): HubState
      reads `views, `sentinelSeq
    {
      HubState(views, sentinelSeq)
    }

    /** The tables agree with each other, and with every subscriber's machine. */
    ghost predicate Tidy()
      reads `subs, `queues, `fullStreak, `fullSince, `views, `sentinelSeq
    {
      cfg.Valid() && Consistent(cfg, Now()) && Shows(Now(), views) && sentinelSeq <= 0
    }

    ghost predicate Valid()
      reads this
    {
      Tidy() && RingIsRecent()
    }

    constructor (ringSize: int, queueSize: int, evictAfter: int, evictMinSeconds: real)
      ensures Valid() && State() == EMPTY_HUB && Published() == []
      ensures cfg == Config(if ringSize < 1 then 1 else ringSize, if queueSize < 1 then 1 else queueSize,
                            if evictAfter < 1 then 1 else evictAfter,
                            if evictMinSeconds < 0.0 then 0.0 else evictMinSeconds)
    {
      cfg := Config(if ringSize < 1 then 1 else ringSize, if queueSize < 1 then 1 else queueSize,
                    if evictAfter < 1 then 1 else evictAfter,
                    if evictMinSeconds < 0.0 then 0.0 else evictMinSeconds);
      subs, queues, ring := [], map[], [];
      fullStreak, fullSince, sentinelSeq := map[], map[], 0;
      forgotten, views := [], map[];
    }

    /** The snapshot ends with the last event published, and the queue collects
        everything published from here on: no gap between the two. */
    method Subscribe(q: QueueId) returns (snapshot: seq<Payload>)
      requires Valid() && q !in queues
      modifies `queues, `subs, `views
      ensures Valid() && subs == old(subs) + [q]
      ensures HubStep(cfg, old(State()), Joined(q), State())
      ensures Published() == forgotten + snapshot && (forgotten == [] || |snapshot| == cfg.ringSize)
    {
      SubscribedChanges(cfg, Now(), q, views);
      queues := queues[q := []];
      subs := subs + [q];
      snapshot := ring;
      views := views[q := FRESH];
    }

    method Unsubscribe(q: QueueId)
      requires Valid() && q in queues
      modifies `subs, `fullStreak, `fullSince, `views
      ensures Valid() && HubStep(cfg, old(State()), Left(q), State())
    {
      ghost var t := Now();
      Drop(q);
      DroppedChanges(cfg, t, Now(), q, views);
      views := views[q := Sub(queues[q], 0, None, false)];
    }

    method Drop(q: QueueId)
      requires Distinct(subs)
      modifies `subs, `fullStreak, `fullSince
      ensures Dropped(old(Now()), Now(), q)
    {
      if q in subs {
        var i := IndexOf(subs, q);
        RemovedAt(subs, i);
        subs := subs[..i] + subs[i + 1..];
      }
      fullStreak := fullStreak - {q};
      fullSince := fullSince - {q};
    }

    method Receive(q: QueueId) returns (frame: Frame)
      requires Tidy() && q in queues && queues[q] != []
      modifies `queues, `views
      ensures Tidy() && frame == old(queues)[q][0]
      ensures HubStep(cfg, old(State()), Received(q), State())
    {
      ReceivedChanges(cfg, Now(), q, views);
      frame := queues[q][0];
      queues := queues[q := queues[q][1..]];
      views := views[q := Next(cfg, views[q], Take, 0)];
    }

    /** Each subscriber takes exactly one step of its own machine, and a queue that
        is not subscribed is left alone. The numbers of the eviction notices left
        behind are below every earlier one, and no two are equal. */
    method Publish(payload: Payload, now: real, check: real)
      requires Valid()
      modifies this
      ensures Valid() && Published() == old(Published()) + [payload]
      ensures HubStep(cfg, old(State()), Sent(payload, now, check), State())
    {
      ghost var t, before := Now(), views;
      Remember(payload);
      DeliverToAll(payload, now, check);
      SubscribersAreLive(cfg, t, before, views, Deliver(payload, now, check));
    }

    /** The loop in `publish`, over the subscribers there are when it starts. */
    method DeliverToAll(payload: Payload, now: real, check: real)
      requires Tidy()
      modifies `subs, `queues, `fullStreak, `fullSince, `sentinelSeq, `views
      ensures Tidy()
      ensures Stepped(cfg, old(views), views, old(subs), Deliver(payload, now, check))
      ensures Numbered(old(views), views, sentinelSeq, old(sentinelSeq))
    {
      var todo := subs;
      ghost var before, start := views, sentinelSeq;
      ghost var step := Deliver(payload, now, check);
      assert AllLive(before, todo);
      var i := 0;
      while i < |todo|
        invariant 0 <= i <= |todo| && Tidy()
        invariant Stepped(cfg, before, views, todo[..i], step)
        invariant Numbered(before, views, sentinelSeq, start)
      {
        ghost var last, prior := sentinelSeq, views;
        YetToStep(cfg, before, views, todo, i, step);
        assert todo[i] in subs;
        DeliverTo(todo[i], payload, now, check);
        assert views == prior[todo[i] := Next(cfg, prior[todo[i]], step, sentinelSeq)];
        OneMore(cfg, before, prior, views, todo, i, step, last, start, sentinelSeq);
        i := i + 1;
      }
      assert todo[..i] == todo;
    }

    /** Append to the ring, which keeps its last `ringSize` entries. */
    method Remember(payload: Payload)
      requires cfg.Valid() && RingIsRecent()
      modifies `ring, `forgotten
      ensures RingIsRecent() && Published() == old(Published()) + [payload]
    {
      ring := ring + [payload];
      if |ring| > cfg.ringSize {
        forgotten := forgotten + [ring[0]];
        ring := ring[1..];
      }
    }

    /** The body of the loop in `publish`. */
    method DeliverTo(q: QueueId, payload: Payload, now: real, check: real)
      requires Tidy() && q in subs && q in views && views[q].live
      modifies `subs, `queues, `fullStreak, `fullSince, `sentinelSeq, `views
      ensures Tidy()
      ensures views == old(views)[q := Next(cfg, old(views)[q], Deliver(payload, now, check), sentinelSeq)]
      ensures sentinelSeq == old(sentinelSeq) - (if views[q].live then 0 else 1)
    {
      ghost var t, step := Now(), Deliver(payload, now, check);
      Offer(q, payload, now);
      ghost var u := Now();
      if q in fullStreak && fullStreak[q] >= cfg.evictAfter && HasStarved(q, check) {
        Evict(q);
      }
      DeliveredChanges(cfg, t, u, Now(), q, views, step, sentinelSeq);
      views := views[q := Next(cfg, views[q], step, sentinelSeq)];
    }

    /** Make room by dropping the oldest frame, or clear the trouble state; then append. */
    method Offer(q: QueueId, payload: Payload, now: real)
      requires cfg.Valid() && q in queues && fullStreak.Keys == fullSince.Keys
      modifies `queues, `fullStreak, `fullSince
      ensures Offered(cfg, old(Now()), Now(), q, payload, now)
    {
      if |queues[q]| >= cfg.queueSize {
        fullStreak := fullStreak[q := (if q in fullStreak then fullStreak[q] else 0) + 1];
        fullSince := fullSince[q := if q in fullSince then fullSince[q] else now];
        queues := queues[q := queues[q][1..]];
      } else {
        fullStreak := fullStreak - {q};
        fullSince := fullSince - {q};
      }
      queues := queues[q := queues[q] + [Event(payload)]];
    }

    predicate HasStarved(q: QueueId, check: real)
      reads `fullSince
    {
      cfg.floor <= 0.0 || (q in fullSince && check - fullSince[q] >= cfg.floor)
    }

    method Evict(q: QueueId)
      requires Distinct(subs) && sentinelSeq <= 0
      modifies `subs, `queues, `fullStreak, `fullSince, `sentinelSeq
      ensures sentinelSeq == old(sentinelSeq) - 1 < 0
      ensures EvictedFrom(old(Now()), Now(), q, sentinelSeq)
    {
      ghost var t := Now();
      Drop(q);
      ghost var v := Now();
      sentinelSeq := sentinelSeq - 1;
      queues := queues[q := [Evicted(sentinelSeq)]];
      assert Dropped(t, v, q) && Now() == v.(queues := v.queues[q := [Evicted(sentinelSeq)]]);
    }
  }

  // ---- One publish, subscriber by subscriber ----

  /** The number on an eviction notice. */
  function NoticeOf(s: Sub): int {
    if s.queue != [] && s.queue[0].Evicted? then s.queue[0].seqNo else 0
  }

  /** Every queue in `done` has taken one step of its machine, the others none. */
  ghost predicate Stepped(cfg: Config, before: map<QueueId, Sub>, after: map<QueueId, Sub>, done: seq<QueueId>,
                          step: Step)
    requires cfg.Valid()
  {
    && after.Keys == before.Keys
    && forall q | q in before ::
         after[q] == if q in done then Next(cfg, before[q], step, NoticeOf(after[q])) else before[q]
  }

  ghost predicate AllLive(views: map<QueueId, Sub>, todo: seq<QueueId>) {
    forall i | 0 <= i < |todo| :: todo[i] in views && views[todo[i]].live
  }

  predicate Gone(before: map<QueueId, Sub>, after: map<QueueId, Sub>, q: QueueId) {
    q in before && q in after && before[q].live && !after[q].live
  }

  /** The notices of those gone carry fresh, pairwise different numbers. */
  ghost predicate Numbered(before: map<QueueId, Sub>, after: map<QueueId, Sub>, lo: int, hi: int) {
    && lo <= hi
    && (forall q | Gone(before, after, q) :: lo <= NoticeOf(after[q]) < hi)
    && (forall p, q | Gone(before, after, p) && Gone(before, after, q) && p != q ::
          NoticeOf(after[p]) != NoticeOf(after[q]))
  }

  lemma YetToStep(cfg: Config, before: map<QueueId, Sub>, views: map<QueueId, Sub>, todo: seq<QueueId>, i: nat,
                  step: Step)
    requires cfg.Valid() && i < |todo| && Distinct(todo)
    requires AllLive(before, todo)
    requires Stepped(cfg, before, views, todo[..i], step)
    ensures todo[i] in views && views[todo[i]] == before[todo[i]] && views[todo[i]].live
  {
    assert todo[i] !in todo[..i];
  }

  /** The step a live subscriber takes can be told from where it ends. */
  lemma NoticeTellsStep(cfg: Config, s: Sub, step: Step, notice: int)
    requires cfg.Valid() && s.live && step.Deliver?
    ensures var t := Next(cfg, s, step, notice);
      t == Next(cfg, s, step, NoticeOf(t)) && (!t.live ==> NoticeOf(t) == notice)
  {
  }

  lemma OneMore(cfg: Config, before: map<QueueId, Sub>, views: map<QueueId, Sub>, after: map<QueueId, Sub>,
                todo: seq<QueueId>, i: nat, step: Step, lo: int, hi: int, notice: int)
    requires cfg.Valid() && i < |todo| && Distinct(todo) && step.Deliver?
    requires AllLive(before, todo)
    requires Stepped(cfg, before, views, todo[..i], step) && Numbered(before, views, lo, hi)
    requires todo[i] in views && after == views[todo[i] := Next(cfg, views[todo[i]], step, notice)]
    requires notice == (if after[todo[i]].live then lo else lo - 1)
    ensures Stepped(cfg, before, after, todo[..i + 1], step)
    ensures Numbered(before, after, notice, hi)
  {
    var q := todo[i];
    YetToStep(cfg, before, views, todo, i, step);
    NoticeTellsStep(cfg, before[q], step, notice);
    assert todo[..i + 1] == todo[..i] + [q];
    forall p | p in before && p != q
      ensures after[p] == views[p] && (Gone(before, after, p) <==> Gone(before, views, p))
    {
    }
  }
}
