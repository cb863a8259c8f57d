/** The governor of repeated dispatches: the counter per caller and target, and what
    an operator's answer is worth in dispatches
    (`src/salient_core/daemon/_questions.py:714-787`,
    `src/salient_core/policy/safeguards.py:343-384`). */
module Redispatch {
  import opened Wrappers
  import opened Sequences
  import opened AskAgent

  /** Caller and canonical target. */
  type Pair = (string, string)

  function Max(a: int, b: int): int {
    if a < b then b else a
  }

  /** `redispatch_threshold_from_profile`; `None` is a value that is missing or no number. */
  function ThresholdOf(configured: Option<int>): (t: int)
    ensures t >= 2
    ensures configured.None? ==> t == 2
    ensures configured.Some? && configured.value >= 2 ==> t == configured.value
  {
    match configured
    case None => 2
    case Some(n) => Max(2, n)
  }

  // ---- What the actions of a call do to the counter ----

  /** Below 0 the counter is credit. */
  function Touched(threshold: int, count: int, a: Action): int {
    match a
    case SpendOne => Max(threshold - 1, 0)
    case GrantCredit(n) => if n <= 1 then Max(threshold - 1, 0) else -(n - 1)
    case Increment => count + 1
    case _ => count
  }

  function CountAfter(threshold: int, count: int, acts: seq<Action>): int {
    if acts == [] then count
    else Touched(threshold, CountAfter(threshold, count, Front(acts)), Last(acts))
  }

  lemma {:induction false} CountAppends(threshold: int, count: int, a: seq<Action>, b: seq<Action>)
    ensures CountAfter(threshold, count, a + b) == CountAfter(threshold, CountAfter(threshold, count, a), b)
  {
    if b == [] {
      assert a + b == a;
    } else {
      assert Front(a + b) == a + Front(b) && Last(a + b) == Last(b);
      CountAppends(threshold, count, a, Front(b));
    }
  }

  predicate Touches(a: Action) {
    a.SpendOne? || a.GrantCredit? || a.Increment?
  }

  lemma {:induction false} Untouched(threshold: int, count: int, acts: seq<Action>)
    requires forall a | a in acts :: !Touches(a)
    ensures CountAfter(threshold, count, acts) == count
  {
    if acts != [] {
      assert Last(acts) in acts && forall a | a in Front(acts) :: a in acts;
      Untouched(threshold, count, Front(acts));
    }
  }

  /** The dispatch is counted: it reached the runner and is not exempt. */
  predicate Dispatched(f: Flags, env: Env) {
    Submits(f, env) && !f.skipRedispatchGate
  }

  /** The counter after the operator's answer, if there is one. */
  function Answered(f: Flags, env: Env): int {
    if !Reapproved(f, env) then env.redispatchCount
    else if env.redispatch.verdict == Edit || env.redispatch.credit <= 1 then Max(env.redispatchThreshold - 1, 0)
    else 1 - env.redispatch.credit
  }

  lemma SetupTouches(f: Flags, env: Env)
    ensures CountAfter(env.redispatchThreshold, env.redispatchCount, SetupOf(f, env).acts) == Answered(f, env)
  {
    var t, c, r := env.redispatchThreshold, env.redispatchCount, RedispatchOf(f, env);
    var q := Then(StartOf(env), Then(GateOf(env), BestEffort(Provenance, env.provenance)));
    GovernorTouches(f, env);
    if r.exit.None? {
      CountAppends(t, c, r.acts, q.acts);
      forall a | a in q.acts ensures !Touches(a) {
        if IsCredit(a) {
          NoCreditsInSetup(env, a);
        }
        SetupOnlySetsUp(f, env);
        assert a in SetupOf(f, env).acts;
      }
      Untouched(t, Answered(f, env), q.acts);
    }
  }

  lemma GovernorTouches(f: Flags, env: Env)
    ensures CountAfter(env.redispatchThreshold, env.redispatchCount, RedispatchOf(f, env).acts) == Answered(f, env)
  {
    var t, c := env.redispatchThreshold, env.redispatchCount;
    if RedispatchAsked(f, env) {
      var gate, credit := OperatorGate(RedispatchGate, env.redispatch), CreditActs(env.redispatch);
      Untouched(t, c, gate.acts);
      if gate.exit.None? {
        CountAppends(t, c, gate.acts, credit);
        assert Front(credit) == [];
      }
    }
  }

  lemma DispatchTouches(f: Flags, env: Env, t: int, c: int)
    ensures CountAfter(t, c, DispatchActs(f, env)) ==
            c + (if env.submission.Accepted? && !f.skipRedispatchGate then 1 else 0)
  {
    if env.submission.Accepted? {
      var job := env.submission.job;
      var submit, reply, cleanup := SubmitActs(f, env, job), ReplyActs(env), CleanupActs(f, env, job);
      var c' := c + if f.skipRedispatchGate then 0 else 1;
      SubmitTouches(f, env, job, t, c);
      CountAppends(t, c, submit, reply);
      CountAppends(t, c, submit + reply, cleanup);
      Untouched(t, c', reply);
      Untouched(t, c', cleanup);
    } else {
      Untouched(t, c, DispatchActs(f, env));
    }
  }

  lemma SubmitTouches(f: Flags, env: Env, job: nat, t: int, c: int)
    ensures CountAfter(t, c, SubmitActs(f, env, job)) == c + if f.skipRedispatchGate then 0 else 1
  {
    var counted := if f.skipRedispatchGate then [] else [Increment];
    var pump := if Pump(env) then [StartPump] else [];
    CountAppends(t, c, [Submit(job)], counted);
    CountAppends(t, c, [Submit(job)] + counted, pump);
    Untouched(t, c, [Submit(job)]);
    Untouched(t, c + |counted|, pump);
    if counted != [] {
      assert Front(counted) == [];
    }
  }

  /** A whole call moves the counter by the answer, and by one if it is dispatched. */
  lemma CountAfterCall(f: Flags, env: Env)
    ensures CountAfter(env.redispatchThreshold, env.redispatchCount, TraceOf(f, env)) ==
            Answered(f, env) + (if Dispatched(f, env) then 1 else 0)
  {
    var t, c, setup := env.redispatchThreshold, env.redispatchCount, SetupOf(f, env);
    var rest := if setup.exit.None? then DispatchActs(f, env) else [];
    ClearedExactly(f, env);
    SetupTouches(f, env);
    DispatchTouches(f, env, t, Answered(f, env));
    Untouched(t, c, [Register]);
    CountAppends(t, c, [Register], setup.acts);
    CountAppends(t, c, [Register] + setup.acts, rest);
    CountAppends(t, c, [Register] + setup.acts + rest, [Resolve]);
    Untouched(t, Answered(f, env) + (if Dispatched(f, env) then 1 else 0), [Resolve]);
  }

  // ---- One pair, call after call ----

  datatype AskCall = AskCall(f: Flags, env: Env)

  /** Each call finds the counter as the one before left it. */
  ghost predicate OnePair(threshold: int, calls: seq<AskCall>) {
    && (forall i | 0 <= i < |calls| :: calls[i].env.redispatchThreshold == threshold)
    && (forall i | 0 <= i < |calls| - 1 :: Leads(threshold, calls[i], calls[i + 1]))
  }

  predicate Leads(threshold: int, a: AskCall, b: AskCall) {
    b.env.redispatchCount == CountAfter(threshold, a.env.redispatchCount, TraceOf(a.f, a.env))
  }

  predicate Asks(c: AskCall) {
    Await(RedispatchGate, c.env.redispatch.wake) in TraceOf(c.f, c.env)
  }

  /** Neither flag exempts the call from the gate. */
  predicate Governed(c: AskCall) {
    !c.f.skipRedispatchGate && !c.f.swarmFanoutApproved
  }

  lemma AsksExactly(c: AskCall)
    ensures Asks(c) <==> Governed(c) && c.env.redispatchCount >= c.env.redispatchThreshold - 1
    ensures !Asks(c) ==> Answered(c.f, c.env) == c.env.redispatchCount
  {
    GatesAskedExactly(c.f, c.env);
    if RedispatchAsked(c.f, c.env) {
      assert RedispatchOf(c.f, c.env).acts[0] == Await(RedispatchGate, c.env.redispatch.wake);
      assert SetupOf(c.f, c.env).acts[0] == RedispatchOf(c.f, c.env).acts[0];
      assert TraceOf(c.f, c.env)[1] == SetupOf(c.f, c.env).acts[0];
    }
    if Asks(c) {
      assert RedispatchGate in Points(TraceOf(c.f, c.env));
    }
  }

  /** How many of the calls were dispatched. */
  function Dispatches(calls: seq<AskCall>): nat {
    if calls == [] then 0
    else Dispatches(Front(calls)) + (if Dispatched(Last(calls).f, Last(calls).env) then 1 else 0)
  }

  /** None of the calls from `m` to before `n` asks the operator. */
  ghost predicate NoneAsks(calls: seq<AskCall>, m: nat, n: nat)
    requires n <= |calls|
  {
    forall i | m <= i < n :: !Asks(calls[i])
  }

  lemma {:induction false} CountAdvances(threshold: int, calls: seq<AskCall>, i: nat)
    requires OnePair(threshold, calls) && 0 < i < |calls| && NoneAsks(calls, 1, i)
    ensures calls[i].env.redispatchCount == Answered(calls[0].f, calls[0].env) + Dispatches(calls[..i])
    decreases i
  {
    var k := i - 1;
    assert Leads(threshold, calls[k], calls[i]);
    assert Front(calls[..i]) == calls[..k] && Last(calls[..i]) == calls[k];
    CountAfterCall(calls[k].f, calls[k].env);
    if k > 0 {
      CountAdvances(threshold, calls, k);
      AsksExactly(calls[k]);
    }
  }

  /** After "yes N" the gate stays open until `N + threshold - 2` calls, the approved
      one among them, have been dispatched, and then asks again. */
  lemma YesNReopensExactly(threshold: int, calls: seq<AskCall>, i: nat)
    requires OnePair(threshold, calls) && 0 < i < |calls| && NoneAsks(calls, 1, i)
    requires Reapproved(calls[0].f, calls[0].env)
    requires calls[0].env.redispatch.verdict == Approve && calls[0].env.redispatch.credit > 1
    ensures Asks(calls[i]) <==>
            Governed(calls[i]) && Dispatches(calls[..i]) >= calls[0].env.redispatch.credit + threshold - 2
  {
    CountAdvances(threshold, calls, i);
    AsksExactly(calls[i]);
  }

  /** So the promise that "yes N" is worth N dispatches is kept exactly with the
      default threshold 2; a higher one lets `threshold - 2` more through. */
  lemma YesNIsWorthExactly(threshold: int, calls: seq<AskCall>, i: nat)
    requires threshold >= 2 && OnePair(threshold, calls) && 0 < i < |calls|
    requires Reapproved(calls[0].f, calls[0].env)
    requires calls[0].env.redispatch.verdict == Approve && calls[0].env.redispatch.credit > 1
    requires NoneAsks(calls, 1, i) && Asks(calls[i]) && forall k | 0 < k < i :: Governed(calls[k])
    ensures Dispatches(calls[..i]) == calls[0].env.redispatch.credit + threshold - 2
    ensures Dispatches(calls[..i]) == calls[0].env.redispatch.credit <==> threshold == 2
  {
    YesNReopensExactly(threshold, calls, i);
    var k := i - 1;
    assert Front(calls[..i]) == calls[..k] && Last(calls[..i]) == calls[k];
    if k > 0 {
      YesNReopensExactly(threshold, calls, k);
    } else {
      assert calls[..k] == [];
    }
  }

  /** A call to a running target that needs no other permission. */
  function Plain(threshold: int, count: int, n: int): AskCall {
    AskCall(Flags(false, false, false),
            UNLUCKY.(redispatchThreshold := threshold, redispatchCount := count, redispatch := Answer(Ready, Approve, n)))
  }

  lemma PlainCall(threshold: int, count: int, n: int, c: AskCall)
    requires threshold >= 2 && c == Plain(threshold, count, n)
    ensures Asks(c) <==> count >= threshold - 1
    ensures Reapproved(c.f, c.env) <==> count >= threshold - 1
    ensures Dispatched(c.f, c.env)
    ensures CountAfter(threshold, count, TraceOf(c.f, c.env)) ==
            if count < threshold - 1 then count + 1 else if n > 1 then 2 - n else threshold
  {
    AsksExactly(c);
    CountAfterCall(c.f, c.env);
  }

  /** The operator says "yes n" to the first call; the others follow on it. */
  ghost predicate Burst(threshold: int, n: int, calls: seq<AskCall>) {
    && |calls| > 0 && calls[0] == Plain(threshold, threshold - 1, n)
    && forall i | 0 < i < |calls| :: calls[i] == Plain(threshold, 1 - n + i, 0)
  }

  lemma BurstStep(threshold: int, n: int, i: nat, a: AskCall, b: AskCall)
    requires threshold >= 2 && n > 1 && i <= n + threshold - 3
    requires a == if i == 0 then Plain(threshold, threshold - 1, n) else Plain(threshold, 1 - n + i, 0)
    requires b == Plain(threshold, 2 - n + i, 0)
    ensures Leads(threshold, a, b) && Dispatched(a.f, a.env) && (Asks(b) <==> i == n + threshold - 3)
  {
    PlainCall(threshold, a.env.redispatchCount, if i == 0 then n else 0, a);
    PlainCall(threshold, b.env.redispatchCount, 0, b);
  }

  lemma BurstRuns(threshold: int, n: int, calls: seq<AskCall>)
    requires threshold >= 2 && n > 1 && Burst(threshold, n, calls) && |calls| == n + threshold - 1
    ensures OnePair(threshold, calls) && Reapproved(calls[0].f, calls[0].env)
    ensures NoneAsks(calls, 1, |calls| - 1) && Asks(calls[|calls| - 1])
    ensures forall i | 0 <= i < |calls| - 1 :: Dispatched(calls[i].f, calls[i].env)
  {
    forall i | 0 <= i < |calls| - 1 ensures Leads(threshold, calls[i], calls[i + 1]) {
      BurstStep(threshold, n, i, calls[i], calls[i + 1]);
    }
    forall i | 0 <= i < |calls| - 1 ensures Dispatched(calls[i].f, calls[i].env) {
      BurstStep(threshold, n, i, calls[i], calls[i + 1]);
    }
    forall i | 0 < i < |calls| ensures Asks(calls[i]) <==> i == |calls| - 1 {
      BurstStep(threshold, n, i - 1, calls[i - 1], calls[i]);
    }
  }

  /** For every threshold and answer there is a run in which just that many calls are
      dispatched: with threshold 3, "yes 2" lets three through. */
  lemma YesNRun(threshold: int, n: int) returns (calls: seq<AskCall>)
    requires threshold >= 2 && n > 1
    ensures |calls| == n + threshold - 1 && OnePair(threshold, calls)
    ensures Reapproved(calls[0].f, calls[0].env) && calls[0].env.redispatch == Answer(Ready, Approve, n)
    ensures NoneAsks(calls, 1, |calls| - 1) && Asks(calls[|calls| - 1])
    ensures forall i | 0 <= i < |calls| - 1 :: Dispatched(calls[i].f, calls[i].env)
  {
    calls := [Plain(threshold, threshold - 1, n)] + seq(n + threshold - 2, i => Plain(threshold, 2 - n + i, 0));
    BurstRuns(threshold, n, calls);
  }

  /** A plain yes and an edit re-arm the gate: the very next governed call asks,
      whether or not the approved one was dispatched. */
  lemma PlainYesRearms(threshold: int, calls: seq<AskCall>, i: nat)
    requires OnePair(threshold, calls) && 0 < i < |calls| && NoneAsks(calls, 1, i)
    requires Reapproved(calls[0].f, calls[0].env)
    requires calls[0].env.redispatch.verdict == Edit || calls[0].env.redispatch.credit <= 1
    ensures Asks(calls[i]) <==> Governed(calls[i])
  {
    CountAdvances(threshold, calls, i);
    AsksExactly(calls[i]);
  }

  /** From a fresh counter the first `threshold - 1` dispatches are free. */
  lemma FirstDispatchesAreFree(threshold: int, calls: seq<AskCall>, i: nat)
    requires threshold >= 2 && OnePair(threshold, calls) && i < |calls| && calls[0].env.redispatchCount == 0
    requires NoneAsks(calls, 0, i)
    ensures Asks(calls[i]) <==> Governed(calls[i]) && Dispatches(calls[..i]) >= threshold - 1
  {
    AsksExactly(calls[0]);
    AsksExactly(calls[i]);
    if i > 0 {
      CountAdvances(threshold, calls, i);
    }
  }

  // ---- The counters ----

  function CountOf(counts: map<Pair, int>, pair: Pair): int {
    if pair in counts then counts[pair] else 0
  }

  /** Only `pair` may have changed. */
  ghost predicate OnlyAt(before: map<Pair, int>, after: map<Pair, int>, pair: Pair) {
    forall other | other != pair :: CountOf(after, other) == CountOf(before, other)
  }

  class Governor {
    const threshold: int
    const idle: real
    var counts: map<Pair, int>
    var lastTouch: map<Pair, real>

    constructor (configured: Option<int>, resetIdle: real)
      ensures threshold == ThresholdOf(configured) && forall pair :: CountOf(counts, pair) == 0
      ensures idle == if resetIdle > 0.0 then resetIdle else 0.0
    {
      threshold := ThresholdOf(configured);
      idle := if resetIdle > 0.0 then resetIdle else 0.0;
      counts, lastTouch := map[], map[];
    }

    /** `_redispatch_check`: with an idle limit, a pair left alone for longer counts as new. */
    method Check(pair: Pair, now: real) returns (count: int)
      modifies this
      ensures count == CountOf(counts, pair) && OnlyAt(old(counts), counts, pair)
      ensures count == if idle > 0.0 && pair in old(lastTouch) && now - old(lastTouch)[pair] > idle then 0
                       else CountOf(old(counts), pair)
    {
      if idle > 0.0 {
        if pair in lastTouch && now - lastTouch[pair] > idle {
          counts := counts - {pair};
          lastTouch := lastTouch - {pair};
          return 0;
        }
      }
      return CountOf(counts, pair);
    }

    method IncrementCount(pair: Pair, now: real)
      modifies this
      ensures CountOf(counts, pair) == Touched(threshold, CountOf(old(counts), pair), Increment)
      ensures OnlyAt(old(counts), counts, pair) && lastTouch == old(lastTouch)[pair := now]
    {
      counts := counts[pair := CountOf(counts, pair) + 1];
      lastTouch := lastTouch[pair := now];
    }

    method Spend(pair: Pair, now: real)
      modifies this
      ensures CountOf(counts, pair) == Touched(threshold, CountOf(old(counts), pair), SpendOne)
      ensures OnlyAt(old(counts), counts, pair) && lastTouch == old(lastTouch)[pair := now]
    {
      counts := counts[pair := if threshold - 1 < 0 then 0 else threshold - 1];
      lastTouch := lastTouch[pair := now];
    }

    method Grant(pair: Pair, n: int, now: real)
      modifies this
      ensures CountOf(counts, pair) == Touched(threshold, CountOf(old(counts), pair), GrantCredit(n))
      ensures OnlyAt(old(counts), counts, pair) && lastTouch == old(lastTouch)[pair := now]
    {
      if n <= 1 {
        Spend(pair, now);
        return;
      }
      counts := counts[pair := -(n - 1)];
      lastTouch := lastTouch[pair := now];
    }
  }
}
