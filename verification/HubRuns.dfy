/** Whole runs of the event hub: each queue behaves as its own subscription
    machine, and eviction notices keep their numbers apart
    (`src/salient_core/daemon/_event_hub.py`). */
module HubRuns {
  import opened Wrappers
  import opened Sequences
  import opened Subscription
  import opened EventHub

  ghost predicate Path(cfg: Config, states: seq<HubState>, events: seq<HubEvent>) {
    && cfg.Valid()
    && |states| == |events| + 1
    && forall i | 0 <= i < |events| :: HubStep(cfg, states[i], events[i], states[i + 1])
  }

  ghost predicate Run(cfg: Config, states: seq<HubState>, events: seq<HubEvent>) {
    Path(cfg, states, events) && states[0] == EMPTY_HUB
  }

  lemma PathSplits(cfg: Config, states: seq<HubState>, events: seq<HubEvent>)
    requires Path(cfg, states, events) && events != []
    ensures Path(cfg, Front(states), Front(events))
    ensures HubStep(cfg, Last(Front(states)), Last(events), Last(states))
  {
    var ss, es := Front(states), Front(events);
    forall i | 0 <= i < |es| ensures HubStep(cfg, ss[i], es[i], ss[i + 1]) {
      assert HubStep(cfg, states[i], events[i], states[i + 1]);
    }
    assert HubStep(cfg, states[|events| - 1], events[|events| - 1], states[|events|]);
  }

  lemma PathPart(cfg: Config, states: seq<HubState>, events: seq<HubEvent>, m: nat, n: nat)
    returns (ss: seq<HubState>)
    requires Path(cfg, states, events) && m <= n <= |events|
    ensures Path(cfg, ss, events[m..n]) && ss[0] == states[m] && Last(ss) == states[n]
  {
    ss := states[m..n + 1];
    var es := events[m..n];
    forall i | 0 <= i < |es| ensures HubStep(cfg, ss[i], es[i], ss[i + 1]) {
      assert HubStep(cfg, states[m + i], events[m + i], states[m + i + 1]);
    }
  }

  lemma JoinedIsFresh(cfg: Config, states: seq<HubState>, events: seq<HubEvent>, m: nat, q: QueueId)
    requires Path(cfg, states, events) && m < |events| && events[m] == Joined(q)
    ensures q in states[m + 1].views && states[m + 1].views[q] == FRESH
  {
    assert HubStep(cfg, states[m], events[m], states[m + 1]);
  }

  // ---- One queue's part in a run ----

  /** The step of its machine that an event means for `q`, if any. */
  function StepOf(q: QueueId, e: HubEvent): seq<Step> {
    match e
    case Sent(payload, now, check) => [Deliver(payload, now, check)]
    case Received(p) => if p == q then [Take] else []
    case _ => []
  }

  function StepsOf(q: QueueId, events: seq<HubEvent>): seq<Step> {
    if events == [] then [] else StepsOf(q, Front(events)) + StepOf(q, Last(events))
  }

  lemma RunSubNext(cfg: Config, steps: seq<Step>, step: Step, notice: int)
    requires cfg.Valid()
    ensures RunSub(cfg, steps + [step], notice) == Next(cfg, RunSub(cfg, steps, notice), step, notice)
  {
    assert Front(steps + [step]) == steps;
  }

  /** Until it is evicted, a subscriber's machine does not depend on the number
      its notice is going to have. */
  lemma {:induction false} LiveIgnoresNotice(cfg: Config, steps: seq<Step>, a: int, b: int)
    requires cfg.Valid() && RunSub(cfg, steps, a).live
    ensures RunSub(cfg, steps, b) == RunSub(cfg, steps, a)
  {
    if steps != [] {
      LiveIgnoresNotice(cfg, Front(steps), a, b);
    }
  }

  /** What `q` is after one more event, if it does not leave. */
  lemma FollowsOneMore(cfg: Config, s: HubState, e: HubEvent, t: HubState, q: QueueId, steps: seq<Step>, notice: int)
    returns (notice': int)
    requires cfg.Valid() && HubStep(cfg, s, e, t) && q in s.views && e != Left(q)
    requires s.views[q] == RunSub(cfg, steps, notice)
    ensures q in t.views && t.views[q] == RunSub(cfg, steps + StepOf(q, e), notice')
  {
    notice' := notice;
    match e {
      case Sent(payload, now, check) =>
        if s.views[q].live {
          notice' := NoticeOf(t.views[q]);
          LiveIgnoresNotice(cfg, steps, notice, notice');
        }
        RunSubNext(cfg, steps, Deliver(payload, now, check), notice');
      case Received(p) =>
        RunSubNext(cfg, steps, Take, notice);
        assert p != q ==> steps + StepOf(q, e) == steps;
      case _ =>
        assert steps + StepOf(q, e) == steps;
    }
  }

  /** From the moment it is subscribed until its consumer leaves, a queue is
      what its own machine makes of the events. */
  lemma {:induction false} PathFollowsMachine(cfg: Config, states: seq<HubState>, events: seq<HubEvent>, q: QueueId)
    returns (notice: int)
    requires Path(cfg, states, events) && Left(q) !in events
    requires q in states[0].views && states[0].views[q] == FRESH
    ensures q in Last(states).views && Last(states).views[q] == RunSub(cfg, StepsOf(q, events), notice)
  {
    if events == [] {
      notice := 0;
    } else {
      PathSplits(cfg, states, events);
      assert events == Front(events) + [Last(events)];
      notice := PathFollowsMachine(cfg, Front(states), Front(events), q);
      var steps := StepsOf(q, Front(events));
      notice := FollowsOneMore(cfg, Last(Front(states)), Last(events), Last(states), q, steps, notice);
    }
  }

  /** In every run of the hub, with any number of other subscribers coming and
      going. */
  lemma QueueFollowsItsMachine(cfg: Config, states: seq<HubState>, events: seq<HubEvent>, m: nat, n: nat, q: QueueId)
    returns (notice: int)
    requires Run(cfg, states, events) && m < n <= |events|
    requires events[m] == Joined(q) && Left(q) !in events[m + 1..n]
    ensures q in states[n].views
    ensures states[n].views[q] == RunSub(cfg, StepsOf(q, events[m + 1..n]), notice)
  {
    JoinedIsFresh(cfg, states, events, m, q);
    var ss := PathPart(cfg, states, events, m + 1, n);
    notice := PathFollowsMachine(cfg, ss, events[m + 1..n], q);
  }

  function SentPayload(e: HubEvent): seq<Payload> {
    if e.Sent? then [e.payload] else []
  }

  function SentPayloads(events: seq<HubEvent>): seq<Payload> {
    if events == [] then [] else SentPayloads(Front(events)) + SentPayload(Last(events))
  }

  lemma LogOneMore(cfg: Config, q: QueueId, steps: seq<Step>, e: HubEvent, notice: int)
    requires cfg.Valid() && RunSub(cfg, steps + StepOf(q, e), notice).live
    ensures RunSub(cfg, steps, notice).live
    ensures RunLog(cfg, steps + StepOf(q, e), notice).published ==
            RunLog(cfg, steps, notice).published + SentPayload(e)
  {
    if StepOf(q, e) == [] {
      assert steps + StepOf(q, e) == steps;
    } else {
      RunSubNext(cfg, steps, StepOf(q, e)[0], notice);
      assert Front(steps + StepOf(q, e)) == steps;
    }
  }

  /** While a queue is subscribed, its log has published what was sent. */
  lemma {:induction false} LogIsWhatWasSent(cfg: Config, q: QueueId, events: seq<HubEvent>, notice: int)
    requires cfg.Valid() && RunSub(cfg, StepsOf(q, events), notice).live
    ensures RunLog(cfg, StepsOf(q, events), notice).published == SentPayloads(events)
  {
    if events != [] {
      LogOneMore(cfg, q, StepsOf(q, Front(events)), Last(events), notice);
      LogIsWhatWasSent(cfg, q, Front(events), notice);
    }
  }

  /** `queue` holds the last events of `sent`, and no more than it has places for. */
  ghost predicate MostRecent(cfg: Config, queue: seq<Frame>, sent: seq<Payload>) {
    |queue| <= cfg.queueSize && |queue| <= |sent| && queue == Events(sent[|sent| - |queue|..])
  }

  lemma LiveIsRecent(cfg: Config, steps: seq<Step>, notice: int)
    requires cfg.Valid() && RunSub(cfg, steps, notice).live
    ensures MostRecent(cfg, RunSub(cfg, steps, notice).queue, RunLog(cfg, steps, notice).published)
  {
    RunKeepsInv(cfg, steps, notice);
    assert QueueIsSuffix(cfg, RunSub(cfg, steps, notice), RunLog(cfg, steps, notice));
  }

  /** So, in any run of the hub, a consumer that is still subscribed has in its
      queue the last events sent since it subscribed, in order and no more than
      the queue holds. */
  lemma LiveQueueIsRecent(cfg: Config, states: seq<HubState>, events: seq<HubEvent>, m: nat, n: nat, q: QueueId)
    requires Run(cfg, states, events) && m < n <= |events|
    requires events[m] == Joined(q) && Left(q) !in events[m + 1..n]
    requires q in states[n].views && states[n].views[q].live
    ensures MostRecent(cfg, states[n].views[q].queue, SentPayloads(events[m + 1..n]))
  {
    var notice := QueueFollowsItsMachine(cfg, states, events, m, n, q);
    var since := events[m + 1..n];
    LiveIsRecent(cfg, StepsOf(q, since), notice);
    LogIsWhatWasSent(cfg, q, since, notice);
  }

  // ---- The numbers on eviction notices ----

  predicate HoldsNotice(s: Sub) {
    s.queue != [] && s.queue[0].Evicted?
  }

  /** A notice stands alone in the queue of a consumer that is no longer subscribed. */
  ghost predicate NoticeAlone(s: Sub) {
    (forall i | 0 <= i < |s.queue| :: s.queue[i].Event?) || (|s.queue| == 1 && !s.live)
  }

  ghost predicate NoticesApart(s: HubState) {
    && s.sentinel <= 0
    && (forall q | q in s.views :: NoticeAlone(s.views[q]))
    && (forall q | q in s.views && HoldsNotice(s.views[q]) :: s.sentinel <= NoticeOf(s.views[q]) < 0)
    && (forall p, q | p in s.views && q in s.views && p != q && HoldsNotice(s.views[p]) && HoldsNotice(s.views[q]) ::
          NoticeOf(s.views[p]) != NoticeOf(s.views[q]))
  }

  lemma NextLeavesNoticeAlone(cfg: Config, s: Sub, step: Step, notice: int)
    requires cfg.Valid() && NoticeAlone(s)
    ensures var t := Next(cfg, s, step, notice);
      NoticeAlone(t) && (HoldsNotice(t) ==> if s.live then !t.live else t == s)
  {
  }

  lemma SentKeepsApart(cfg: Config, s: HubState, e: HubEvent, t: HubState)
    requires cfg.Valid() && NoticesApart(s) && e.Sent? && HubStep(cfg, s, e, t)
    ensures NoticesApart(t)
  {
    forall q | q in t.views
      ensures NoticeAlone(t.views[q])
      ensures HoldsNotice(t.views[q]) ==> Gone(s.views, t.views, q) || t.views[q] == s.views[q]
    {
      NextLeavesNoticeAlone(cfg, s.views[q], Deliver(e.payload, e.now, e.check), NoticeOf(t.views[q]));
    }
  }

  lemma StepKeepsApart(cfg: Config, s: HubState, e: HubEvent, t: HubState)
    requires cfg.Valid() && NoticesApart(s) && HubStep(cfg, s, e, t)
    ensures NoticesApart(t) && t.sentinel <= s.sentinel
  {
    match e {
      case Sent(_, _, _) => SentKeepsApart(cfg, s, e, t);
      case Received(q) =>
        NextLeavesNoticeAlone(cfg, s.views[q], Take, 0);
      case _ =>
    }
  }

  /** In every run of the hub the notices that wait to be read have negative
      numbers, so none is taken for a published event, and no two are alike. */
  lemma {:induction false} NoticesStayApart(cfg: Config, states: seq<HubState>, events: seq<HubEvent>, n: nat)
    requires Run(cfg, states, events) && n <= |events|
    ensures NoticesApart(states[n])
    decreases n
  {
    if n > 0 {
      NoticesStayApart(cfg, states, events, n - 1);
      StepKeepsApart(cfg, states[n - 1], events[n - 1], states[n]);
    }
  }

  lemma {:induction false} NumbersOnlyFall(cfg: Config, states: seq<HubState>, events: seq<HubEvent>, m: nat, n: nat)
    requires Path(cfg, states, events) && m <= n <= |events|
    ensures states[n].sentinel <= states[m].sentinel
    decreases n
  {
    if m < n {
      NumbersOnlyFall(cfg, states, events, m, n - 1);
      assert HubStep(cfg, states[n - 1], events[n - 1], states[n]);
    }
  }

  /** The publish at `i` evicts `q`. */
  ghost predicate EvictsAt(states: seq<HubState>, events: seq<HubEvent>, i: nat, q: QueueId) {
    && i < |events| && |states| == |events| + 1
    && events[i].Sent? && Gone(states[i].views, states[i + 1].views, q)
  }

  lemma NumberGiven(cfg: Config, states: seq<HubState>, events: seq<HubEvent>, i: nat, q: QueueId)
    requires Path(cfg, states, events) && EvictsAt(states, events, i, q)
    ensures states[i + 1].sentinel <= NoticeOf(states[i + 1].views[q]) < states[i].sentinel
  {
    assert HubStep(cfg, states[i], events[i], states[i + 1]);
  }

  lemma NumbersOfOnePublish(cfg: Config, s: HubState, e: HubEvent, t: HubState, p: QueueId, q: QueueId)
    requires cfg.Valid() && HubStep(cfg, s, e, t) && e.Sent? && p != q
    requires Gone(s.views, t.views, p) && Gone(s.views, t.views, q)
    ensures NoticeOf(t.views[p]) != NoticeOf(t.views[q])
  {
  }

  /** No number is ever used twice, whether or not its notice has been read since, and
      every publish numbers its notices below those of the publishes before it. */
  lemma NumbersAreNeverReused(cfg: Config, states: seq<HubState>, events: seq<HubEvent>,
                              i: nat, p: QueueId, j: nat, q: QueueId)
    requires Run(cfg, states, events) && i <= j && EvictsAt(states, events, i, p) && EvictsAt(states, events, j, q)
    ensures var first, later := NoticeOf(states[i + 1].views[p]), NoticeOf(states[j + 1].views[q]);
      && first < 0 && (i < j ==> later < first) && (i == j && p != q ==> later != first)
  {
    NumberGiven(cfg, states, events, i, p);
    NumberGiven(cfg, states, events, j, q);
    NumbersOnlyFall(cfg, states, events, 0, i);
    if i < j {
      NumbersOnlyFall(cfg, states, events, i + 1, j);
    } else if p != q {
      NumbersOfOnePublish(cfg, states[i], events[i], states[i + 1], p, q);
    }
  }

  // ---- After leaving ----

  /** `rest` is what is left of `all` after some of its first frames were taken. */
  ghost predicate EndOf(rest: seq<Frame>, all: seq<Frame>) {
    |rest| <= |all| && rest == all[|all| - |rest|..]
  }

  lemma LeftGetsNothing(cfg: Config, s: HubState, e: HubEvent, t: HubState, q: QueueId)
    requires cfg.Valid() && HubStep(cfg, s, e, t) && q in s.views && !s.views[q].live
    ensures q in t.views && !t.views[q].live && EndOf(t.views[q].queue, s.views[q].queue)
    ensures e.Sent? ==> t.views[q] == s.views[q]
  {
  }

  /** In every run, a queue whose consumer left, or was evicted, receives nothing any
      more: it only ever gets shorter from the front. */
  lemma {:induction false} NothingAfterLeaving(cfg: Config, states: seq<HubState>, events: seq<HubEvent>,
                                               m: nat, n: nat, q: QueueId)
    requires Path(cfg, states, events) && m <= n <= |events|
    requires q in states[m].views && !states[m].views[q].live
    ensures q in states[n].views && !states[n].views[q].live
    ensures EndOf(states[n].views[q].queue, states[m].views[q].queue)
    decreases n
  {
    if m < n {
      var k := n - 1;
      NothingAfterLeaving(cfg, states, events, m, k, q);
      assert HubStep(cfg, states[k], events[k], states[n]);
      LeftGetsNothing(cfg, states[k], events[k], states[n], q);
    }
  }

  /** Leaving keeps what is still queued and clears both tables, and nothing of any
      other subscriber changes. */
  lemma LeavingExactly(cfg: Config, s: HubState, q: QueueId, t: HubState)
    requires cfg.Valid() && HubStep(cfg, s, Left(q), t)
    ensures q in t.views && !t.views[q].live && t.views[q].queue == s.views[q].queue
    ensures t.views[q].streak == 0 && t.views[q].since == None
    ensures t.views.Keys == s.views.Keys && forall p | p in s.views && p != q :: t.views[p] == s.views[p]
  {
  }
}
