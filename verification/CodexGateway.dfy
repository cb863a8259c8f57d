/** Revoking a credential while tool calls are in flight: `CodexMcpGateway` in
    `src/salient_core/codex_mcp.py:313-367, 387-410, 494-541`. */
module CodexGateway {
  import opened Wrappers

  type Token = string
  type CatalogId = nat  // one per `_Catalog` object
  type Call = nat       // one per scheduled future
  type Worker = nat     // one per running `revoke` or `close`

  /** `scheduled` is the history that `pending` is cut from. */
  datatype Catalog = Catalog(owner: string, revoked: bool, pending: set<Call>, scheduled: set<Call>)

  /** What a `revoke` or `close` still has to do outside the lock: take a snapshot
      of `pending` for each catalog in `remaining`, and cancel what is in `todo`.
      `revoking` is the catalog a `revoke` retired. */
  datatype Job = Job(revoking: Option<CatalogId>, remaining: set<CatalogId>, todo: set<Call>)

  datatype Gateway = Gateway(
    catalogs: map<Token, CatalogId>,
    objects: map<CatalogId, Catalog>,  // also those only a dispatch still refers to
    finished: set<Call>,               // done or cancelled
    jobs: map<Worker, Job>)

  /** The atomic steps: sections under the lock, and single actions outside it. */
  datatype Event =
    | Issue(token: Token, owner: string, made: CatalogId)
    | Revoke(token: Token, worker: Worker)
    | Close(worker: Worker)
    | Snapshot(worker: Worker, of: CatalogId)
    | Cancel(worker: Worker, call: Call)
    | Return(worker: Worker)
    | Dispatch(to: CatalogId, call: Call)
    | Finish(call: Call)
    | Discard(from: CatalogId, call: Call)

  function Superseded(g: Gateway, owner: string): set<Token> {
    set t | t in g.catalogs && g.catalogs[t] in g.objects && g.objects[g.catalogs[t]].owner == owner
  }

  ghost predicate Step(g: Gateway, e: Event, h: Gateway) {
    match e
    case Issue(token, owner, made) =>
      && made !in g.objects && token !in g.catalogs
      && h == g.(catalogs := (g.catalogs - Superseded(g, owner))[token := made],
                 objects := g.objects[made := Catalog(owner, false, {}, {})])
    case Revoke(token, worker) =>
      && worker !in g.jobs
      && if token in g.catalogs && g.catalogs[token] in g.objects then
           var c := g.catalogs[token];
           h == g.(catalogs := g.catalogs - {token},
                   objects := g.objects[c := g.objects[c].(revoked := true)],
                   jobs := g.jobs[worker := Job(Some(c), {c}, {})])
         else h == g
    case Close(worker) =>
      worker !in g.jobs &&
      h == g.(catalogs := map[], jobs := g.jobs[worker := Job(None, g.catalogs.Values, {})])
    case Snapshot(worker, of) =>
      && worker in g.jobs && g.jobs[worker].todo == {} && of in g.jobs[worker].remaining && of in g.objects
      && h == g.(jobs := g.jobs[worker :=
           g.jobs[worker].(remaining := g.jobs[worker].remaining - {of}, todo := g.objects[of].pending)])
    case Cancel(worker, call) =>
      && worker in g.jobs && call in g.jobs[worker].todo
      && h == g.(finished := g.finished + {call},
                 jobs := g.jobs[worker := g.jobs[worker].(todo := g.jobs[worker].todo - {call})])
    case Return(worker) =>
      && worker in g.jobs && g.jobs[worker].remaining == {} && g.jobs[worker].todo == {}
      && h == g.(jobs := g.jobs - {worker})
    case Dispatch(to, call) =>
      to in g.objects && (forall c | c in g.objects :: call !in g.objects[c].scheduled) &&
      var catalog := g.objects[to];
      h == if catalog.revoked then g
           else g.(objects := g.objects[to := catalog.(pending := catalog.pending + {call},
                                                      scheduled := catalog.scheduled + {call})])
    case Finish(call) =>
      h == g.(finished := g.finished + {call})
    case Discard(from, call) =>
      from in g.objects && call in g.finished &&
      h == g.(objects := g.objects[from := g.objects[from].(pending := g.objects[from].pending - {call})])
  }

  const START := Gateway(map[], map[], {}, map[])

  /** `events` lead from `g` to `h`. */
  ghost predicate Path(g: Gateway, states: seq<Gateway>, events: seq<Event>, h: Gateway) {
    && |states| == |events| + 1 && states[0] == g && states[|events|] == h
    && forall i | 0 <= i < |events| :: Step(states[i], events[i], states[i + 1])
  }

  ghost predicate Run(states: seq<Gateway>, events: seq<Event>) {
    |states| == |events| + 1 && Path(START, states, events, states[|events|])
  }

  lemma PathExtends(g: Gateway, states: seq<Gateway>, events: seq<Event>, h: Gateway, e: Event, next: Gateway)
    requires Path(g, states, events, h) && Step(h, e, next)
    ensures Path(g, states + [next], events + [e], next)
  {
    var ss, es := states + [next], events + [e];
    forall i | 0 <= i < |es| ensures Step(ss[i], es[i], ss[i + 1]) {
      if i < |events| {
        assert Step(states[i], events[i], states[i + 1]);
      }
    }
  }

  // ---- Invariants ----

  /** At most one live catalog per owner, and none of the live ones is revoked. */
  ghost predicate OnePerOwner(g: Gateway) {
    && (forall t | t in g.catalogs :: g.catalogs[t] in g.objects && !g.objects[g.catalogs[t]].revoked)
    && (forall s, t | s in g.catalogs && t in g.catalogs && s != t ::
          g.objects[g.catalogs[s]].owner != g.objects[g.catalogs[t]].owner)
  }

  /** A call that is no longer pending has finished. */
  ghost predicate PendingOrFinished(g: Gateway) {
    forall c | c in g.objects :: g.objects[c].scheduled <= g.objects[c].pending + g.finished
  }

  /** A revoke that took its snapshot has every unfinished call of its catalog in hand. */
  ghost predicate Covered(g: Gateway, job: Job) {
    job.revoking.Some? ==>
      var c := job.revoking.value;
      && c in g.objects && g.objects[c].revoked && job.remaining <= {c}
      && (c !in job.remaining ==> g.objects[c].scheduled <= job.todo + g.finished)
  }

  ghost predicate Inv(g: Gateway) {
    OnePerOwner(g) && PendingOrFinished(g) && forall w | w in g.jobs :: Covered(g, g.jobs[w])
  }

  /** What no step takes back: revocation, completion, and history. */
  ghost predicate Grows(g: Gateway, h: Gateway) {
    && g.finished <= h.finished
    && forall c | c in g.objects ::
         && c in h.objects && h.objects[c].owner == g.objects[c].owner
         && (g.objects[c].revoked ==> h.objects[c].revoked && h.objects[c].scheduled == g.objects[c].scheduled)
  }

  lemma StepGrows(g: Gateway, e: Event, h: Gateway)
    requires Step(g, e, h)
    ensures Grows(g, h)
  {
  }

  lemma StepKeepsOwners(g: Gateway, e: Event, h: Gateway)
    requires Inv(g) && Step(g, e, h)
    ensures OnePerOwner(h)
  {
  }

  lemma StepKeepsPending(g: Gateway, e: Event, h: Gateway)
    requires Inv(g) && Step(g, e, h)
    ensures PendingOrFinished(h)
  {
  }

  lemma StepKeepsCover(g: Gateway, e: Event, h: Gateway, w: Worker)
    requires Inv(g) && Step(g, e, h) && w in h.jobs
    ensures Covered(h, h.jobs[w])
  {
    StepGrows(g, e, h);
    if w in g.jobs {
      assert Covered(g, g.jobs[w]);
      if e.Snapshot? && e.worker == w && g.jobs[w].revoking == Some(e.of) {
        assert g.objects[e.of].scheduled <= g.objects[e.of].pending + g.finished;
      }
    }
  }

  lemma KeepsInv(g: Gateway, e: Event, h: Gateway)
    requires Inv(g) && Step(g, e, h)
    ensures Inv(h)
  {
    StepKeepsOwners(g, e, h);
    StepKeepsPending(g, e, h);
    forall w | w in h.jobs ensures Covered(h, h.jobs[w]) {
      StepKeepsCover(g, e, h, w);
    }
  }

  lemma {:induction false} RunKeeps(states: seq<Gateway>, events: seq<Event>, n: nat)
    requires Run(states, events) && n <= |events|
    ensures Inv(states[n])
    decreases n
  {
    if n > 0 {
      RunKeeps(states, events, n - 1);
      KeepsInv(states[n - 1], events[n - 1], states[n]);
    }
  }

  lemma {:induction false} RunGrows(states: seq<Gateway>, events: seq<Event>, m: nat, n: nat)
    requires Run(states, events) && m <= n <= |events|
    ensures Grows(states[m], states[n])
    decreases n
  {
    if m < n {
      RunGrows(states, events, m, n - 1);
      StepGrows(states[n - 1], events[n - 1], states[n]);
    }
  }

  // ---- Main results ----

  /** Once `revoke` has returned, every call its catalog ever scheduled has
      finished or been cancelled, and from the moment the flag was set no call has
      been scheduled on it, in every interleaving with dispatches, other revokes,
      issues and close. */
  lemma RevokeIsFinal(states: seq<Gateway>, events: seq<Event>, m: nat, n: nat, k: nat)
    requires Run(states, events) && m < n < |events| && n <= k <= |events|
    requires events[m].Revoke? && events[m].token in states[m].catalogs
    requires events[n] == Return(events[m].worker)
    requires forall i | m < i < n :: events[i] != Return(events[m].worker)
    ensures var c := states[m].catalogs[events[m].token];
      && c in states[m].objects && c in states[k].objects && states[k].objects[c].revoked
      && states[k].objects[c].scheduled == states[m].objects[c].scheduled
      && states[k].objects[c].scheduled <= states[k].finished
  {
    var c := states[m].catalogs[events[m].token];
    var w := events[m].worker;
    RunKeeps(states, events, m);
    assert Step(states[m], events[m], states[m + 1]);
    StillRevoking(states, events, m + 1, n, w, c);
    RunKeeps(states, events, n);
    assert Covered(states[n], states[n].jobs[w]);
    assert Step(states[n], events[n], states[n + 1]);
    RunGrows(states, events, m + 1, n);
    RunGrows(states, events, n, k);
    RunGrows(states, events, m + 1, k);
  }

  /** A revoke's job names its catalog until it returns. */
  lemma {:induction false} StillRevoking(states: seq<Gateway>, events: seq<Event>, m: nat, n: nat, w: Worker, c: CatalogId)
    requires Run(states, events) && m <= n <= |events|
    requires w in states[m].jobs && states[m].jobs[w].revoking == Some(c)
    requires forall i | m <= i < n :: events[i] != Return(w)
    ensures w in states[n].jobs && states[n].jobs[w].revoking == Some(c)
    decreases n
  {
    if m < n {
      StillRevoking(states, events, m, n - 1, w, c);
      assert Step(states[n - 1], events[n - 1], states[n]);
      assert events[n - 1] != Return(w);
    }
  }

  /** Once revoked, a token is gone until it is issued again. */
  lemma {:induction false} RevokedStaysGone(states: seq<Gateway>, events: seq<Event>, m: nat, n: nat, token: Token)
    requires Run(states, events) && m <= n <= |events| && token !in states[m].catalogs
    requires forall i | m <= i < n :: !(events[i].Issue? && events[i].token == token)
    ensures token !in states[n].catalogs
    decreases n
  {
    if m < n {
      RevokedStaysGone(states, events, m, n - 1, token);
      assert Step(states[n - 1], events[n - 1], states[n]);
      assert !(events[n - 1].Issue? && events[n - 1].token == token);
    }
  }

  /** So revoking it again changes nothing, whatever happened in between. */
  lemma RevokeTwiceIsNothing(states: seq<Gateway>, events: seq<Event>, m: nat, n: nat)
    requires Run(states, events) && m < n < |events|
    requires events[m].Revoke? && events[n].Revoke? && events[n].token == events[m].token
    requires forall i | m < i < n :: !(events[i].Issue? && events[i].token == events[m].token)
    ensures states[n + 1] == states[n]
  {
    RunKeeps(states, events, m);
    assert Step(states[m], events[m], states[m + 1]);
    RevokedStaysGone(states, events, m + 1, n, events[m].token);
    assert Step(states[n], events[n], states[n + 1]);
  }

  // ---- Catalogs dropped without a revoke ----

  /** No live token leads to `c`, and it was never revoked: superseded by a newer
      catalog of its owner, or cleared by `close`. */
  ghost predicate Orphaned(g: Gateway, c: CatalogId) {
    && c in g.objects && !g.objects[c].revoked
    && forall t | t in g.catalogs :: g.catalogs[t] != c
  }

  /** A dispatch schedules its call exactly when the catalog's flag is not set,
      whether or not the catalog is still reachable by a token. */
  lemma DispatchSchedulesExactly(g: Gateway, c: CatalogId, call: Call, h: Gateway)
    requires Step(g, Dispatch(c, call), h)
    ensures call in h.objects[c].scheduled <==> !g.objects[c].revoked
  {
  }

  /** A catalog its owner's next `issue` superseded keeps scheduling calls, even
      after its token has been revoked. */
  lemma SupersededStillSchedules() returns (states: seq<Gateway>, events: seq<Event>)
    ensures Run(states, events)
    ensures events == [Issue("t", "agent", 0), Issue("u", "agent", 1), Event.Revoke("t", 0), Dispatch(0, 7)]
    ensures Orphaned(states[4], 0) && 7 in states[4].objects[0].pending
  {
    var idle := Catalog("agent", false, {}, {});
    var called := Catalog("agent", false, {7}, {7});
    var s1 := Gateway(map["t" := 0], map[0 := idle], {}, map[]);
    var s2 := Gateway(map["u" := 1], map[0 := idle, 1 := idle], {}, map[]);
    var s4 := Gateway(map["u" := 1], map[0 := called, 1 := idle], {}, map[]);
    assert Superseded(s1, "agent") == {"t"};
    assert Step(START, Issue("t", "agent", 0), s1);
    assert Step(s1, Issue("u", "agent", 1), s2);
    assert Step(s2, Event.Revoke("t", 0), s2);
    assert s2.objects[0 := called] == s4.objects;
    assert {} + {7} == {7};
    assert Step(s2, Dispatch(0, 7), s4);
    states := [START, s1, s2, s2, s4];
    events := [Issue("t", "agent", 0), Issue("u", "agent", 1), Event.Revoke("t", 0), Dispatch(0, 7)];
  }

  /** So does a catalog that was live when `close` cleared the table. */
  lemma ClosedStillSchedules() returns (states: seq<Gateway>, events: seq<Event>)
    ensures Run(states, events)
    ensures events == [Issue("t", "agent", 0), Close(0), Snapshot(0, 0), Return(0), Dispatch(0, 7)]
    ensures Orphaned(states[5], 0) && 7 in states[5].objects[0].pending && states[5].jobs == map[]
  {
    var live := Catalog("agent", false, {}, {});
    var s1 := Gateway(map["t" := 0], map[0 := live], {}, map[]);
    var s2 := Gateway(map[], map[0 := live], {}, map[0 := Job(None, {0}, {})]);
    var s3 := Gateway(map[], map[0 := live], {}, map[0 := Job(None, {}, {})]);
    var s4 := Gateway(map[], map[0 := live], {}, map[]);
    var s5 := Gateway(map[], map[0 := Catalog("agent", false, {7}, {7})], {}, map[]);
    assert Step(START, Issue("t", "agent", 0), s1);
    assert s1.catalogs.Values == {0};
    assert Step(s1, Close(0), s2);
    assert {0} - {0} == {} && {} + {7} == {7};
    assert Step(s2, Snapshot(0, 0), s3);
    assert s3.jobs - {0} == map[];
    assert Step(s3, Return(0), s4);
    assert Step(s4, Dispatch(0, 7), s5);
    states := [START, s1, s2, s3, s4, s5];
    events := [Issue("t", "agent", 0), Close(0), Snapshot(0, 0), Return(0), Dispatch(0, 7)];
  }

  /** Dropping a catalog without setting the flag is for good: no later revoke can
      reach it, so every dispatch that still holds it keeps scheduling. */
  lemma {:induction false} OrphansAreNeverRevoked(states: seq<Gateway>, events: seq<Event>, m: nat, n: nat, c: CatalogId)
    requires Run(states, events) && m <= n <= |events| && Orphaned(states[m], c)
    ensures Orphaned(states[n], c)
    decreases n
  {
    if m < n {
      OrphansAreNeverRevoked(states, events, m, n - 1, c);
      RunKeeps(states, events, n - 1);
      assert Step(states[n - 1], events[n - 1], states[n]);
    }
  }

  /** Whatever happens in between, a dispatch that still holds an orphan schedules its call. */
  lemma OrphansKeepScheduling(states: seq<Gateway>, events: seq<Event>, m: nat, n: nat, c: CatalogId)
    requires Run(states, events) && m <= n < |events| && Orphaned(states[m], c)
    requires events[n].Dispatch? && events[n].to == c
    ensures c in states[n + 1].objects && events[n].call in states[n + 1].objects[c].scheduled
  {
    OrphansAreNeverRevoked(states, events, m, n, c);
    assert Step(states[n], events[n], states[n + 1]);
    DispatchSchedulesExactly(states[n], c, events[n].call, states[n + 1]);
  }

  /** Both `issue` and `close` orphan. */
  lemma WhoOrphans(g: Gateway, e: Event, h: Gateway, t: Token)
    requires Inv(g) && Step(g, e, h) && t in g.catalogs && t !in h.catalogs
    ensures if e.Revoke? then h.objects[g.catalogs[t]].revoked
            else (e.Issue? || e.Close?) && Orphaned(h, g.catalogs[t])
  {
    var c := g.catalogs[t];
    if !e.Revoke? {
      assert h.objects[c] == g.objects[c];
      forall s | s in h.catalogs ensures h.catalogs[s] != c {
        if s in g.catalogs && e.Issue? && s != e.token {
          assert g.objects[g.catalogs[s]].owner != g.objects[c].owner;
        }
      }
    }
  }

  /** A token leads where it led before, except that it disappears exactly by its own
      revoke, by an issue to the owner of its catalog, or by close. */
  lemma TokensExactly(g: Gateway, e: Event, h: Gateway, t: Token)
    requires Inv(g) && Step(g, e, h) && t in g.catalogs
    ensures t !in h.catalogs <==>
            || (e.Revoke? && e.token == t)
            || (e.Issue? && g.objects[g.catalogs[t]].owner == e.owner)
            || e.Close?
    ensures t in h.catalogs ==> h.catalogs[t] == g.catalogs[t]
  {
  }

  // ---- Which calls are pending, and which are cancelled ----

  /** In every run a scheduled call is pending on its catalog exactly until its dispatch
      discards it, whatever happens to the token. */
  lemma {:induction false} PendingUntilDiscarded(states: seq<Gateway>, events: seq<Event>, m: nat, n: nat)
    requires Run(states, events) && m < n <= |events| && events[m].Dispatch?
    requires events[m].to in states[m].objects && !states[m].objects[events[m].to].revoked
    ensures var c, call := events[m].to, events[m].call;
      && c in states[n].objects && call in states[n].objects[c].scheduled
      && (call in states[n].objects[c].pending <==> forall i | m < i < n :: events[i] != Discard(c, call))
    decreases n
  {
    var k := n - 1;
    assert Step(states[k], events[k], states[n]);
    if m < k {
      PendingUntilDiscarded(states, events, m, k);
    }
  }

  /** What a `close` or `revoke` that has `c` to deal with still owes a call that was
      scheduled on it. */
  ghost predicate Owes(g: Gateway, w: Worker, c: CatalogId, call: Call) {
    && c in g.objects && call in g.objects[c].scheduled
    && (call in g.finished || (w in g.jobs && (c in g.jobs[w].remaining || call in g.jobs[w].todo)))
  }

  lemma {:induction false} StillOwes(states: seq<Gateway>, events: seq<Event>, m: nat, n: nat, w: Worker,
                                     c: CatalogId, call: Call)
    requires Run(states, events) && m <= n <= |events|
    requires Owes(states[m], w, c, call) && w in states[m].jobs
    requires forall i | m <= i < n :: events[i] != Return(w)
    ensures Owes(states[n], w, c, call) && w in states[n].jobs
    decreases n
  {
    if m < n {
      var k := n - 1;
      StillOwes(states, events, m, k, w, c, call);
      RunKeeps(states, events, k);
      assert Step(states[k], events[k], states[n]);
      assert events[k] != Return(w);
      assert call in states[k].objects[c].pending + states[k].finished;
    }
  }

  /** Once `close` has returned, every call that a live catalog had scheduled before
      has finished or been cancelled. */
  lemma CloseFinishesCalls(states: seq<Gateway>, events: seq<Event>, m: nat, n: nat, t: Token, call: Call)
    requires Run(states, events) && m < n < |events|
    requires events[m].Close? && events[n] == Return(events[m].worker)
    requires forall i | m < i < n :: events[i] != Return(events[m].worker)
    requires t in states[m].catalogs && states[m].catalogs[t] in states[m].objects
    requires call in states[m].objects[states[m].catalogs[t]].scheduled
    ensures call in states[n].finished
  {
    assert Step(states[m], events[m], states[m + 1]);
    StillOwes(states, events, m + 1, n, events[m].worker, states[m].catalogs[t], call);
    assert Step(states[n], events[n], states[n + 1]);
  }

  /** A step finishes a call only by itself, or by cancelling a call that a revoke or
      close has in hand. */
  lemma FinishedExactly(g: Gateway, e: Event, h: Gateway, call: Call)
    requires Step(g, e, h)
    ensures call in h.finished <==> call in g.finished || e == Finish(call) || (e.Cancel? && e.call == call)
    ensures e.Cancel? ==> e.worker in g.jobs && e.call in g.jobs[e.worker].todo
  {
  }

  // ---- The gateway ----

  /** The loop of `issue` that drops stale catalogs of the same owner. */
  method WithoutOwner(catalogs: map<Token, CatalogId>, objects: map<CatalogId, Catalog>, owner: string)
    returns (kept: map<Token, CatalogId>)
    requires forall t | t in catalogs :: catalogs[t] in objects
    ensures kept == catalogs - (set t | t in catalogs && catalogs[t] in objects && objects[catalogs[t]].owner == owner)
  {
    kept := catalogs;
    var stored := catalogs.Keys;
    while stored != {}
      invariant stored <= catalogs.Keys
      invariant kept == map t | t in catalogs && (t in stored || objects[catalogs[t]].owner != owner) :: catalogs[t]
      decreases |stored|
    {
      var stale :| stale in stored;
      if objects[catalogs[stale]].owner == owner {
        kept := kept - {stale};
      }
      stored := stored - {stale};
    }
  }

  class CodexMcpGateway {
    var catalogs: map<Token, CatalogId>
    var objects: map<CatalogId, Catalog>
    var finished: set<Call>
    ghost var jobs: map<Worker, Job>

    ghost function State(): Gateway
      reads this
    {
      Gateway(catalogs, objects, finished, jobs)
    }

    constructor ()
      ensures State() == START
    {
      catalogs, objects, finished, jobs := map[], map[], {}, map[];
    }

    /** Drop every catalog of the same owner, then install the new one. */
    method Issue(token: Token, owner: string, made: CatalogId)
      requires Inv(State()) && made !in objects && token !in catalogs
      modifies this
      ensures Step(old(State()), Event.Issue(token, owner, made), State()) && Inv(State())
    {
      ghost var g := State();
      catalogs := WithoutOwner(catalogs, objects, owner);
      objects := objects[made := Catalog(owner, false, {}, {})];
      catalogs := catalogs[token := made];
      KeepsInv(g, Event.Issue(token, owner, made), State());
    }

    /** The section of `revoke` under the lock. */
    method Retire(token: Token, ghost worker: Worker) returns (retired: Option<CatalogId>)
      requires Inv(State()) && worker !in jobs
      modifies `catalogs, `objects, `jobs
      ensures Step(old(State()), Event.Revoke(token, worker), State()) && Inv(State())
      ensures retired == if token in old(catalogs) then Some(old(catalogs)[token]) else None
    {
      ghost var g := State();
      if token !in catalogs {
        return None;
      }
      var c := catalogs[token];
      catalogs := catalogs - {token};
      objects := objects[c := objects[c].(revoked := true)];
      jobs := jobs[worker := Job(Some(c), {c}, {})];
      KeepsInv(g, Event.Revoke(token, worker), State());
      return Some(c);
    }

    /** The section of `_dispatch` under the lock. */
    method Schedule(to: CatalogId, call: Call) returns (scheduled: bool)
      requires Inv(State()) && to in objects && forall c | c in objects :: call !in objects[c].scheduled
      modifies `objects
      ensures Step(old(State()), Dispatch(to, call), State()) && Inv(State())
      ensures scheduled == !old(objects)[to].revoked
    {
      ghost var g := State();
      if objects[to].revoked {
        return false;
      }
      objects := objects[to := objects[to].(pending := objects[to].pending + {call},
                                            scheduled := objects[to].scheduled + {call})];
      KeepsInv(g, Dispatch(to, call), State());
      return true;
    }

    /** The `finally` of `_dispatch`. */
    method Discard(from: CatalogId, call: Call)
      requires Inv(State()) && from in objects && call in finished
      modifies `objects
      ensures Step(old(State()), Event.Discard(from, call), State()) && Inv(State())
    {
      ghost var g := State();
      objects := objects[from := objects[from].(pending := objects[from].pending - {call})];
      KeepsInv(g, Event.Discard(from, call), State());
    }

    /** `revoke` from beginning to end when nothing else runs: each turn of its loop
        is a step, so other steps may fall between any two of them. */
    method Revoke(token: Token, ghost worker: Worker) returns (ghost states: seq<Gateway>, ghost events: seq<Event>)
      requires Inv(State()) && worker !in jobs
      modifies this
      ensures Path(old(State()), states, events, State()) && Inv(State())
      ensures events != [] && events[0] == Event.Revoke(token, worker)
      ensures token in old(catalogs) ==> events[|events| - 1] == Event.Return(worker)
      ensures jobs == old(jobs) && catalogs == old(catalogs) - {token}
      ensures token in old(catalogs) ==>
                var c := old(catalogs)[token];
                && objects == old(objects)[c := old(objects)[c].(revoked := true)]
                && finished == old(finished) + old(objects)[c].pending
                && old(objects)[c].scheduled <= finished
      ensures token !in old(catalogs) ==> State() == old(State())
    {
      ghost var g := State();
      var retired := Retire(token, worker);
      states, events := [g, State()], [Event.Revoke(token, worker)];
      if retired == None {
        return;
      }
      states, events := CancelPending(retired.value, worker, g, states, events);
      assert Covered(State(), jobs[worker]);
      ghost var h := State();
      jobs := jobs - {worker};
      KeepsInv(h, Event.Return(worker), State());
      PathExtends(g, states, events, h, Event.Return(worker), State());
      states, events := states + [State()], events + [Event.Return(worker)];
    }

    /** The section of `revoke` outside the lock: one snapshot, then one
        cancellation after the other. It extends the path from `g` walked so far. */
    method CancelPending(c: CatalogId, ghost worker: Worker,
                         ghost g: Gateway, ghost states: seq<Gateway>, ghost events: seq<Event>)
      returns (ghost states': seq<Gateway>, ghost events': seq<Event>)
      requires Inv(State()) && c in objects && worker in jobs && jobs[worker] == Job(Some(c), {c}, {})
      requires Path(g, states, events, State())
      modifies `finished, `jobs
      ensures Inv(State()) && jobs == old(jobs)[worker := Job(Some(c), {}, {})]
      ensures finished == old(finished) + objects[c].pending
      ensures Path(g, states', events', State())
      ensures events + [Event.Snapshot(worker, c)] <= events'
      ensures forall i | |events| < i < |events'| ::
                events'[i].Cancel? && events'[i].worker == worker && events'[i].call in objects[c].pending
    {
      ghost var before := State();
      var pending := objects[c].pending;
      assert {c} - {c} == {};
      jobs := jobs[worker := Job(Some(c), {}, pending)];
      KeepsInv(before, Event.Snapshot(worker, c), State());
      PathExtends(g, states, events, before, Event.Snapshot(worker, c), State());
      states', events' := states + [State()], events + [Event.Snapshot(worker, c)];
      while pending != {}
        invariant Inv(State()) && pending <= objects[c].pending
        invariant jobs == old(jobs)[worker := Job(Some(c), {}, pending)]
        invariant finished + pending == old(finished) + objects[c].pending
        invariant Path(g, states', events', State())
        invariant events + [Event.Snapshot(worker, c)] <= events'
        invariant forall i | |events| < i < |events'| ::
                    events'[i].Cancel? && events'[i].worker == worker && events'[i].call in objects[c].pending
        decreases |pending|
      {
        var call :| call in pending;
        before := State();
        pending := pending - {call};
        finished := finished + {call};
        jobs := jobs[worker := Job(Some(c), {}, pending)];
        KeepsInv(before, Event.Cancel(worker, call), State());
        PathExtends(g, states', events', before, Event.Cancel(worker, call), State());
        states', events' := states' + [State()], events' + [Event.Cancel(worker, call)];
      }
    }
  }
}
