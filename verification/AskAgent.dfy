/** One `ask_agent` call from its registration to its exit
    (`src/salient_core/bus/_delegation.py:569-1089`): the phases inside the
    `try`, and the mandatory cleanup in its `finally`. Everything the call
    cannot control is an input, so each statement is about every way the
    operator, the child and a cancellation can interfere. */
module AskAgent {
  import opened Wrappers
  import opened Sequences

  // ---- What the environment decides ----

  /** The places where the call is suspended. */
  datatype Point =
    | RedispatchGate | Audit | StartGate | StartAgent | DelegationGate | Provenance
    | ReplyWait | Drain | PumpJoin | Reap

  /** How a suspension ends. `Cancelled(true)` is a cancellation of this call;
      `Cancelled(false)` comes from the awaited object being cancelled. */
  datatype Wake = Ready | TimedOut | RuntimeErr | OtherErr | Cancelled(byParent: bool)

  datatype Verdict = Approve | Deny | Edit

  datatype Answer = Answer(wake: Wake, verdict: Verdict, credit: int)

  datatype Starting =
    | Running
    | NotConfigured
    | Trusted(audit: Wake, start: Wake, registered: bool)
    | Asked(answer: Answer, start: Wake, registered: bool)

  datatype Gating = Ungated | Bypassed(audit: Wake) | Gated(answer: Answer)

  datatype Submission = Accepted(job: nat) | NoId | SubmitRaised

  datatype Env = Env(
    redispatchCount: int, redispatchThreshold: int, redispatch: Answer,
    starting: Starting, gating: Gating, stillRunning: bool,
    provenance: Wake, subscribed: bool, submission: Submission,
    callerHasPane: bool, reply: Wake, jobFailed: bool,
    drain: Wake, pumpJoin: Wake, reap: Wake)

  datatype Flags = Flags(skipRedispatchGate: bool, swarmFanoutApproved: bool, detach: bool)

  // ---- What the call does ----

  datatype Action =
    | Register
    | Await(point: Point, wake: Wake)
    | Heard(verdict: Verdict)
    | SpendOne | GrantCredit(n: int)
    | Submit(job: nat)
    | Increment
    | StartPump
    | Unsubscribe
    | SpawnStop(job: nat)
    | Resolve

  datatype Exit = Replied | ErrorText | CancelRaised | ErrorRaised

  // ---- What happens in a call, by what the environment decides ----

  /** What one phase does, and the exit it takes out of the `try`, if any. */
  datatype Phase = Phase(acts: seq<Action>, exit: Option<Exit>)

  function Then(p: Phase, q: Phase): Phase {
    if p.exit.Some? then p else Phase(p.acts + q.acts, q.exit)
  }

  /** A bounded wait for an operator's answer. */
  function OperatorGate(point: Point, a: Answer): Phase {
    match a.wake
    case Ready =>
      Phase([Await(point, Ready), Heard(a.verdict)], if a.verdict == Deny then Some(ErrorText) else None)
    case TimedOut | RuntimeErr => Phase([Await(point, a.wake)], Some(ErrorText))
    case OtherErr => Phase([Await(point, a.wake)], Some(ErrorRaised))
    case Cancelled(_) => Phase([Await(point, a.wake)], Some(CancelRaised))
  }

  /** An await under `suppress(Exception)`: only a cancellation gets through. */
  function BestEffort(point: Point, wake: Wake): Phase {
    Phase([Await(point, wake)], if wake.Cancelled? then Some(CancelRaised) else None)
  }

  predicate RedispatchAsked(f: Flags, env: Env) {
    !f.skipRedispatchGate && !f.swarmFanoutApproved && env.redispatchCount >= env.redispatchThreshold - 1
  }

  function CreditActs(a: Answer): seq<Action> {
    if a.verdict != Edit && a.credit > 1 then [GrantCredit(a.credit)] else [SpendOne]
  }

  function RedispatchOf(f: Flags, env: Env): Phase {
    if RedispatchAsked(f, env)
    then Then(OperatorGate(RedispatchGate, env.redispatch), Phase(CreditActs(env.redispatch), None))
    else Phase([], None)
  }

  function StartingOf(start: Wake, registered: bool): Phase {
    Phase([Await(StartAgent, start)],
          if start.Cancelled? then Some(CancelRaised)
          else if start == Ready && registered then None
          else Some(ErrorText))
  }

  function StartOf(env: Env): Phase {
    match env.starting
    case Running => Phase([], None)
    case NotConfigured => Phase([], Some(ErrorText))
    case Trusted(audit, start, registered) => Then(BestEffort(Audit, audit), StartingOf(start, registered))
    case Asked(answer, start, registered) => Then(OperatorGate(StartGate, answer), StartingOf(start, registered))
  }

  function GateOf(env: Env): Phase {
    Then(match env.gating
         case Ungated => Phase([], None)
         case Bypassed(audit) => BestEffort(Audit, audit)
         case Gated(answer) => OperatorGate(DelegationGate, answer),
         Phase([], if env.stillRunning then None else Some(ErrorText)))
  }

  function SetupOf(f: Flags, env: Env): Phase {
    Then(RedispatchOf(f, env), Then(StartOf(env), Then(GateOf(env), BestEffort(Provenance, env.provenance))))
  }

  predicate Pump(env: Env) {
    env.subscribed && env.callerHasPane
  }

  function SubmitActs(f: Flags, env: Env, job: nat): seq<Action> {
    [Submit(job)] + (if f.skipRedispatchGate then [] else [Increment]) + (if Pump(env) then [StartPump] else [])
  }

  predicate Answered(env: Env) {
    env.reply == Ready && !env.jobFailed
  }

  function ReplyActs(env: Env): seq<Action> {
    [Await(ReplyWait, env.reply)] + (if Answered(env) && Pump(env) then [Await(Drain, env.drain)] else [])
  }

  /** The exit the `try` takes once a child was submitted. */
  function ReplyExit(env: Env): Exit {
    match env.reply
    case TimedOut | RuntimeErr => ErrorText
    case OtherErr => ErrorRaised
    case Cancelled(_) => CancelRaised
    case Ready =>
      if env.jobFailed then ErrorText
      else if Pump(env) && env.drain in {TimedOut, RuntimeErr, OtherErr} then ErrorRaised
      else Replied
  }

  /** The echo pump is still there when the `finally` begins. */
  predicate PumpLeft(env: Env) {
    Pump(env) && ReplyExit(env) != Replied
  }

  predicate JoinCancelled(env: Env) {
    PumpLeft(env) && env.pumpJoin == Cancelled(true)
  }

  predicate StopSpawned(f: Flags, env: Env) {
    env.reply != Ready && !f.detach
  }

  predicate StopAwaited(f: Flags, env: Env) {
    StopSpawned(f, env) && env.reply != Cancelled(true) && !JoinCancelled(env)
  }

  function CleanupActs(f: Flags, env: Env, job: nat): seq<Action> {
    (if PumpLeft(env) then [Await(PumpJoin, env.pumpJoin)] else [])
    + (if env.subscribed then [Unsubscribe] else [])
    + (if StopSpawned(f, env) then [SpawnStop(job)] else [])
    + (if StopAwaited(f, env) then [Await(Reap, env.reap)] else [])
  }

  function DispatchActs(f: Flags, env: Env): seq<Action> {
    if env.submission.Accepted? then
      SubmitActs(f, env, env.submission.job) + ReplyActs(env) + CleanupActs(f, env, env.submission.job)
    else if env.subscribed then [Unsubscribe]
    else []
  }

  function DispatchExit(f: Flags, env: Env): Exit {
    if !env.submission.Accepted? then ErrorRaised
    else if JoinCancelled(env) || (StopAwaited(f, env) && env.reap.Cancelled?) then CancelRaised
    else ReplyExit(env)
  }

  /** The set-up, the dispatch if the set-up went through, and what encloses them. */
  function Framed(setup: Phase, dispatch: seq<Action>): seq<Action> {
    [Register] + setup.acts + (if setup.exit.None? then dispatch else []) + [Resolve]
  }

  function TraceOf(f: Flags, env: Env): seq<Action> {
    Framed(SetupOf(f, env), DispatchActs(f, env))
  }

  function ExitOf(f: Flags, env: Env): Exit {
    if SetupOf(f, env).exit.Some? then SetupOf(f, env).exit.value else DispatchExit(f, env)
  }

  // ---- The call itself ----

  /** The locals that outlive the `try`, the actions so far, and whether this task
      has been asked to cancel (`Task.cancelling() > 0`). */
  datatype Locals = Locals(trace: seq<Action>, childQ: bool, echoPump: bool, childJob: Option<nat>, completed: bool,
                           cancelling: bool)
  {
    function Do(a: Action): Locals {
      this.(trace := trace + [a], cancelling := cancelling || (a.Await? && a.wake == Cancelled(true)))
    }
  }

  /** From `st` to `st'` the phase `p` took place and no other local changed; going
      on means that nobody asked this call to cancel. */
  ghost predicate Took(st: Locals, st': Locals, exit: Option<Exit>, p: Phase) {
    && st' == st.(trace := st.trace + p.acts, cancelling := st'.cancelling)
    && exit == p.exit
    && (exit.None? ==> st'.cancelling == st.cancelling)
  }

  method AwaitOperator(st: Locals, point: Point, answer: Answer) returns (st': Locals, exit: Option<Exit>)
    ensures Took(st, st', exit, OperatorGate(point, answer))
  {
    st' := st.Do(Await(point, answer.wake));
    match answer.wake {
      case Ready =>
        st' := st'.Do(Heard(answer.verdict));
        exit := if answer.verdict == Deny then Some(ErrorText) else None;
      case TimedOut | RuntimeErr => exit := Some(ErrorText);
      case OtherErr => exit := Some(ErrorRaised);
      case Cancelled(_) => exit := Some(CancelRaised);
    }
  }

  method AwaitBestEffort(st: Locals, point: Point, wake: Wake) returns (st': Locals, exit: Option<Exit>)
    ensures Took(st, st', exit, BestEffort(point, wake))
  {
    st' := st.Do(Await(point, wake));
    exit := if wake.Cancelled? then Some(CancelRaised) else None;
  }

  /** Phase 0.5: the redispatch governor. */
  method RedispatchPhase(f: Flags, env: Env, st: Locals) returns (st': Locals, exit: Option<Exit>)
    ensures Took(st, st', exit, RedispatchOf(f, env))
  {
    st', exit := st, None;
    if !f.skipRedispatchGate && !f.swarmFanoutApproved && env.redispatchCount >= env.redispatchThreshold - 1 {
      st', exit := AwaitOperator(st, RedispatchGate, env.redispatch);
      if exit.None? {
        if env.redispatch.verdict == Edit {
          st' := st'.Do(SpendOne);
        } else if env.redispatch.credit > 1 {
          st' := st'.Do(GrantCredit(env.redispatch.credit));
        } else {
          st' := st'.Do(SpendOne);
        }
      }
    }
  }

  /** `start_agent` and the check that the agent registered. */
  method StartTarget(st: Locals, start: Wake, registered: bool) returns (st': Locals, exit: Option<Exit>)
    ensures Took(st, st', exit, StartingOf(start, registered))
  {
    st' := st.Do(Await(StartAgent, start));
    match start {
      case Ready => exit := if registered then None else Some(ErrorText);
      case TimedOut | RuntimeErr | OtherErr => exit := Some(ErrorText);
      case Cancelled(_) => exit := Some(CancelRaised);
    }
  }

  /** Phase 1: start the target when it is not running. */
  method StartPhase(env: Env, st: Locals) returns (st': Locals, exit: Option<Exit>)
    ensures Took(st, st', exit, StartOf(env))
  {
    match env.starting {
      case Running =>
        st', exit := st, None;
      case NotConfigured =>
        st', exit := st, Some(ErrorText);
      case Trusted(audit, start, registered) =>
        st', exit := AwaitBestEffort(st, Audit, audit);
        if exit.None? {
          st', exit := StartTarget(st', start, registered);
        }
      case Asked(answer, start, registered) =>
        st', exit := AwaitOperator(st, StartGate, answer);
        if exit.None? {
          st', exit := StartTarget(st', start, registered);
        }
    }
  }

  /** Phase 2: the delegation approval gate, then the re-fetch of the runner. */
  method GatePhase(env: Env, st: Locals) returns (st': Locals, exit: Option<Exit>)
    ensures Took(st, st', exit, GateOf(env))
  {
    match env.gating {
      case Ungated => st', exit := st, None;
      case Bypassed(audit) => st', exit := AwaitBestEffort(st, Audit, audit);
      case Gated(answer) => st', exit := AwaitOperator(st, DelegationGate, answer);
    }
    if exit.None? && !env.stillRunning {
      exit := Some(ErrorText);
    }
  }

  /** What the locals say when the `try` is left after a submission. */
  ghost predicate LeftTry(f: Flags, env: Env, st0: Locals, st: Locals, job: nat) {
    && st.trace == st0.trace + SubmitActs(f, env, job) + ReplyActs(env)
    && st.childQ == env.subscribed && st.echoPump == PumpLeft(env)
    && st.childJob == Some(job) && st.completed == (env.reply == Ready)
    && (!st.completed ==> (st.cancelling <==> env.reply == Cancelled(true)))
    && (PumpLeft(env) ==> (st.cancelling <==> env.reply == Cancelled(true)))
  }

  /** Phase 3, up to the submission. */
  method Submitted(f: Flags, env: Env, st0: Locals, job: nat) returns (st: Locals)
    requires st0.childJob.None? && !st0.completed && !st0.echoPump && st0.childQ == env.subscribed
    ensures st == st0.(trace := st0.trace + SubmitActs(f, env, job), childJob := Some(job), echoPump := Pump(env))
  {
    st := st0.Do(Submit(job));
    st := st.(childJob := Some(job));
    if !f.skipRedispatchGate {
      st := st.Do(Increment);
    }
    if st.childQ && env.callerHasPane {
      st := st.Do(StartPump);
      st := st.(echoPump := true);
    }
  }

  /** Wait for the reply; once it is there, stop and drain the echo pump. */
  method AwaitReply(f: Flags, env: Env, ghost st0: Locals, st1: Locals, ghost job: nat)
    returns (st: Locals, exit: Exit)
    requires !st0.cancelling && !st0.completed && st0.childQ == env.subscribed
    requires st1 == st0.(trace := st0.trace + SubmitActs(f, env, job), childJob := Some(job), echoPump := Pump(env))
    ensures LeftTry(f, env, st0, st, job) && exit == ReplyExit(env)
  {
    st := st1.Do(Await(ReplyWait, env.reply));
    match env.reply {
      case TimedOut | RuntimeErr => return st, ErrorText;
      case OtherErr => return st, ErrorRaised;
      case Cancelled(_) => return st, CancelRaised;
      case Ready =>
    }
    st := st.(completed := true);
    if env.jobFailed {
      return st, ErrorText;
    }
    if st.echoPump {
      // `with suppress(CancelledError): await echo_pump`
      st := st.Do(Await(Drain, env.drain));
      if !env.drain.Cancelled? && env.drain != Ready {
        return st, ErrorRaised;
      }
      st := st.(echoPump := false);
    }
    exit := Replied;
  }

  /** Cancel the echo pump and wait for it. A cancellation that lands here is
      deferred: it becomes the exit, and the cleanup goes on. */
  method JoinPump(env: Env, st0: Locals, exit0: Exit) returns (st: Locals, exit: Exit, parentCancelled: bool)
    ensures var cancelled := st0.echoPump && env.pumpJoin.Cancelled? && (st0.cancelling || env.pumpJoin.byParent);
      && st.trace == st0.trace + (if st0.echoPump then [Await(PumpJoin, env.pumpJoin)] else [])
                               + (if st0.childQ then [Unsubscribe] else [])
      && st.childJob == st0.childJob && st.completed == st0.completed
      && exit == (if cancelled then CancelRaised else exit0)
      && parentCancelled == (st0.cancelling || cancelled)
  {
    st, exit := st0, exit0;
    parentCancelled := st.cancelling;
    if st.echoPump {
      st := st.Do(Await(PumpJoin, env.pumpJoin));
      if env.pumpJoin.Cancelled? && st.cancelling {
        parentCancelled := true;
        exit := CancelRaised;
      }
    }
    if st.childQ {
      st := st.Do(Unsubscribe);
    }
  }

  /** Stop a child that was submitted and has neither replied nor been detached.
      The stop is awaited unless the call is being cancelled; only a cancellation
      of that wait changes the exit. */
  method ReapChild(f: Flags, env: Env, st0: Locals, exit0: Exit, parentCancelled: bool)
    returns (st: Locals, exit: Exit)
    ensures var stop := !st0.completed && !f.detach && st0.childJob.Some?;
      && st.trace == st0.trace + (if stop then [SpawnStop(st0.childJob.value)] else [])
                               + (if stop && !parentCancelled then [Await(Reap, env.reap)] else [])
      && exit == if stop && !parentCancelled && env.reap.Cancelled? then CancelRaised else exit0
  {
    st, exit := st0, exit0;
    if !st.completed && !f.detach && st.childJob.Some? {
      st := st.Do(SpawnStop(st.childJob.value));
      if !parentCancelled {
        st := st.Do(Await(Reap, env.reap));
        exit := if env.reap.Cancelled? then CancelRaised else exit;
      }
    }
  }

  /** The `finally`. */
  method Cleanup(f: Flags, env: Env, st0: Locals, exit0: Exit) returns (st: Locals, exit: Exit)
    ensures st0.childJob.None? && !st0.echoPump ==>
              exit == exit0 && st.trace == st0.trace + (if st0.childQ then [Unsubscribe] else []) + [Resolve]
    ensures forall s, job :: LeftTry(f, env, s, st0, job) && exit0 == ReplyExit(env) && env.submission == Accepted(job) ==>
              st.trace == st0.trace + CleanupActs(f, env, job) + [Resolve] && exit == DispatchExit(f, env)
  {
    var parentCancelled;
    st, exit, parentCancelled := JoinPump(env, st0, exit0);
    st, exit := ReapChild(f, env, st, exit, parentCancelled);
    st := st.Do(Resolve);
  }

  lemma TookThen(st0: Locals, st1: Locals, st2: Locals, e1: Option<Exit>, e2: Option<Exit>, p: Phase, q: Phase)
    requires Took(st0, st1, e1, p)
    requires if e1.Some? then st2 == st1 && e2 == e1 else Took(st1, st2, e2, q)
    ensures Took(st0, st2, e2, Then(p, q))
  {
    assert st0.trace + p.acts + q.acts == st0.trace + (p.acts + q.acts);
  }

  /** Everything up to the submission: each gate only after the ones before it. */
  method SetUp(f: Flags, env: Env, st0: Locals) returns (st: Locals, early: Option<Exit>)
    ensures Took(st0, st, early, SetupOf(f, env))
  {
    st, early := RedispatchPhase(f, env, st0);
    if early.Some? { return; }
    ghost var st1 := st;
    st, early := StartPhase(env, st);
    ghost var st2, e2 := st, early;
    if early.None? {
      st, early := GatePhase(env, st);
    }
    ghost var st3, e3 := st, early;
    if early.None? {
      st, early := AwaitBestEffort(st, Provenance, env.provenance);
    }
    var last := BestEffort(Provenance, env.provenance);
    if e2.None? {
      TookThen(st2, st3, st, e3, early, GateOf(env), last);
    }
    TookThen(st1, st2, st, e2, early, StartOf(env), Then(GateOf(env), last));
    TookThen(st0, st1, st, None, early, RedispatchOf(f, env), Then(StartOf(env), Then(GateOf(env), last)));
  }

  /** Phase 3 and the `finally`, once every gate has been passed. */
  method Dispatch(f: Flags, env: Env, st0: Locals) returns (st: Locals, exit: Exit)
    requires st0 == Locals(st0.trace, false, false, None, false, false)
    ensures st.trace == st0.trace + DispatchActs(f, env) + [Resolve] && exit == DispatchExit(f, env)
  {
    st := st0.(childQ := env.subscribed);
    ghost var ready := st;
    match env.submission {
      case SubmitRaised | NoId =>
        exit := ErrorRaised;
      case Accepted(job) =>
        st := Submitted(f, env, st, job);
        st, exit := AwaitReply(f, env, ready, st, job);
    }
    st, exit := Cleanup(f, env, st, exit);
  }

  lemma FramedBy(setup: Phase, dispatch: seq<Action>, begun: seq<Action>, trace: seq<Action>)
    requires begun == [Register] + setup.acts
    requires trace == if setup.exit.None? then begun + dispatch + [Resolve] else begun + [Resolve]
    ensures trace == Framed(setup, dispatch)
  {
  }

  /** The whole call does what the environment determines, and nothing else. */
  method Run(f: Flags, env: Env) returns (trace: seq<Action>, exit: Exit)
    ensures trace == TraceOf(f, env) && exit == ExitOf(f, env)
  {
    var st := Locals([], false, false, None, false, false).Do(Register);
    var early;
    st, early := SetUp(f, env, st);
    ghost var begun := st.trace;
    if early.Some? {
      st, exit := Cleanup(f, env, st, early.value);
    } else {
      st, exit := Dispatch(f, env, st);
    }
    trace := st.trace;
    FramedBy(SetupOf(f, env), DispatchActs(f, env), begun, trace);
  }

  // ---- When a call submits ----

  predicate Allowed(a: Answer) {
    a.wake == Ready && a.verdict != Deny
  }

  predicate RedispatchPassed(f: Flags, env: Env) {
    RedispatchAsked(f, env) ==> Allowed(env.redispatch)
  }

  /** `start_agent` is called. */
  predicate StartCalled(env: Env) {
    match env.starting
    case Trusted(audit, _, _) => !audit.Cancelled?
    case Asked(answer, _, _) => Allowed(answer)
    case Running => false
    case NotConfigured => false
  }

  predicate TargetUp(env: Env) {
    || env.starting.Running?
    || (StartCalled(env) && env.starting.start == Ready && env.starting.registered)
  }

  predicate DelegationPassed(env: Env) {
    match env.gating
    case Ungated => true
    case Bypassed(audit) => !audit.Cancelled?
    case Gated(answer) => Allowed(answer)
  }

  predicate Cleared(f: Flags, env: Env) {
    && RedispatchPassed(f, env) && TargetUp(env) && DelegationPassed(env)
    && env.stillRunning && !env.provenance.Cancelled?
  }

  predicate Submits(f: Flags, env: Env) {
    Cleared(f, env) && env.submission.Accepted?
  }

  /** The set-up goes through exactly when every gate it needs was passed. */
  lemma ClearedExactly(f: Flags, env: Env)
    ensures SetupOf(f, env).exit.None? <==> Cleared(f, env)
  {
  }

  /** Actions of the set-up: it neither submits, counts, stops nor resolves. */
  predicate SettingUp(a: Action) {
    a.Heard? || a.SpendOne? || a.GrantCredit?
    || (a.Await? && a.point in {RedispatchGate, Audit, StartGate, StartAgent, DelegationGate, Provenance})
  }

  lemma SetupOnlySetsUp(f: Flags, env: Env)
    ensures forall a | a in SetupOf(f, env).acts :: SettingUp(a)
  {
    var redispatch, start, gate := RedispatchOf(f, env), StartOf(env), GateOf(env);
    assert forall a | a in redispatch.acts :: SettingUp(a);
    StartSetsUp(env);
    GateSetsUp(env);
    var provenance := BestEffort(Provenance, env.provenance);
    ThenSetsUp(gate, provenance);
    ThenSetsUp(start, Then(gate, provenance));
    ThenSetsUp(redispatch, Then(start, Then(gate, provenance)));
  }

  lemma ThenSetsUp(p: Phase, q: Phase)
    requires forall a | a in p.acts + q.acts :: SettingUp(a)
    ensures forall a | a in Then(p, q).acts :: SettingUp(a)
  {
  }

  lemma StartSetsUp(env: Env)
    ensures forall a | a in StartOf(env).acts :: SettingUp(a)
  {
  }

  lemma GateSetsUp(env: Env)
    ensures forall a | a in GateOf(env).acts :: SettingUp(a)
  {
  }

  /** A child is submitted exactly when every needed gate was passed, the target is
      configured, up and still running, the provenance entry was not cancelled, and
      the runner took the job. */
  lemma SubmittedExactly(f: Flags, env: Env, job: nat)
    ensures Submit(job) in TraceOf(f, env) <==> Submits(f, env) && job == env.submission.job
  {
    ClearedExactly(f, env);
    SetupOnlySetsUp(f, env);
    FramedMembers(SetupOf(f, env), DispatchActs(f, env), Submit(job));
    DispatchSubmits(f, env, job);
  }

  lemma FramedMembers(setup: Phase, dispatch: seq<Action>, a: Action)
    requires !SettingUp(a) && a != Register && a != Resolve
    requires forall x | x in setup.acts :: SettingUp(x)
    ensures a in Framed(setup, dispatch) <==> setup.exit.None? && a in dispatch
  {
  }

  lemma DispatchSubmits(f: Flags, env: Env, job: nat)
    ensures Submit(job) in DispatchActs(f, env) <==> env.submission == Accepted(job)
  {
  }

  // ---- Which gates are asked, and in which order ----

  /** Where a trace was suspended. */
  function Points(trace: seq<Action>): set<Point> {
    set a | a in trace && a.Await? :: a.point
  }

  lemma PointsAppend(s: seq<Action>, t: seq<Action>)
    ensures Points(s + t) == Points(s) + Points(t)
  {
  }

  lemma PointsThen(p: Phase, q: Phase)
    ensures Points(Then(p, q).acts) == Points(p.acts) + (if p.exit.None? then Points(q.acts) else {})
  {
    PointsAppend(p.acts, q.acts);
  }

  lemma OperatorGatePoints(point: Point, a: Answer)
    ensures Points(OperatorGate(point, a).acts) == {point}
    ensures OperatorGate(point, a).exit.None? <==> Allowed(a)
  {
    var acts := OperatorGate(point, a).acts;
    assert acts[0] == Await(point, a.wake);
  }

  lemma OneAwait(point: Point, wake: Wake)
    ensures Points([Await(point, wake)]) == {point}
  {
    assert [Await(point, wake)][0] == Await(point, wake);
  }

  lemma RedispatchPoints(f: Flags, env: Env)
    ensures Points(RedispatchOf(f, env).acts) == if RedispatchAsked(f, env) then {RedispatchGate} else {}
    ensures RedispatchOf(f, env).exit.None? <==> RedispatchPassed(f, env)
  {
    if RedispatchAsked(f, env) {
      OperatorGatePoints(RedispatchGate, env.redispatch);
      PointsThen(OperatorGate(RedispatchGate, env.redispatch), Phase(CreditActs(env.redispatch), None));
    }
  }

  lemma StartPoints(env: Env)
    ensures var points := Points(StartOf(env).acts);
      && (StartGate in points <==> env.starting.Asked?)
      && (StartAgent in points <==> StartCalled(env))
      && (Audit in points <==> env.starting.Trusted?)
      && points <= {Audit, StartGate, StartAgent}
    ensures StartOf(env).exit.None? <==> TargetUp(env)
  {
    match env.starting {
      case Running =>
      case NotConfigured =>
      case Trusted(audit, start, registered) =>
        OneAwait(Audit, audit);
        OneAwait(StartAgent, start);
        PointsThen(BestEffort(Audit, audit), StartingOf(start, registered));
      case Asked(answer, start, registered) =>
        OperatorGatePoints(StartGate, answer);
        OneAwait(StartAgent, start);
        PointsThen(OperatorGate(StartGate, answer), StartingOf(start, registered));
    }
  }

  lemma GatePoints(env: Env)
    ensures var points := Points(GateOf(env).acts);
      && (DelegationGate in points <==> env.gating.Gated?)
      && (Audit in points <==> env.gating.Bypassed?)
      && points <= {Audit, DelegationGate}
    ensures GateOf(env).exit.None? <==> DelegationPassed(env) && env.stillRunning
  {
    var last := Phase([], if env.stillRunning then None else Some(ErrorText));
    match env.gating {
      case Ungated =>
        PointsThen(Phase([], None), last);
      case Bypassed(audit) =>
        OneAwait(Audit, audit);
        PointsThen(BestEffort(Audit, audit), last);
      case Gated(answer) =>
        OperatorGatePoints(DelegationGate, answer);
        PointsThen(OperatorGate(DelegationGate, answer), last);
    }
  }

  lemma DispatchPoints(f: Flags, env: Env)
    ensures Points(DispatchActs(f, env)) <= {ReplyWait, Drain, PumpJoin, Reap}
    ensures forall a | a in DispatchActs(f, env) :: !SettingUp(a)
  {
  }

  /** Every gate is asked, and every entry of the set-up written, exactly when it is
      needed and everything before it went through. */
  lemma GatesAskedExactly(f: Flags, env: Env)
    ensures AskedAsNeeded(f, env, Points(TraceOf(f, env)))
  {
    RedispatchPoints(f, env);
    StartPoints(env);
    GatePoints(env);
    OneAwait(Provenance, env.provenance);
    DispatchPoints(f, env);
    AskedByPhases(f, env, RedispatchOf(f, env), StartOf(env), GateOf(env),
                  BestEffort(Provenance, env.provenance), DispatchActs(f, env));
  }

  predicate AskedAsNeeded(f: Flags, env: Env, asked: set<Point>) {
    && (RedispatchGate in asked <==> RedispatchAsked(f, env))
    && (StartGate in asked <==> RedispatchPassed(f, env) && env.starting.Asked?)
    && (StartAgent in asked <==> RedispatchPassed(f, env) && StartCalled(env))
    && (DelegationGate in asked <==> RedispatchPassed(f, env) && TargetUp(env) && env.gating.Gated?)
    && (Audit in asked <==>
          RedispatchPassed(f, env) && (env.starting.Trusted? || (TargetUp(env) && env.gating.Bypassed?)))
    && (Provenance in asked <==>
          RedispatchPassed(f, env) && TargetUp(env) && DelegationPassed(env) && env.stillRunning)
  }

  /** As above, from what each phase asks on its own. */
  lemma AskedByPhases(f: Flags, env: Env, r: Phase, s: Phase, g: Phase, p: Phase, dispatch: seq<Action>)
    requires Points(r.acts) == if RedispatchAsked(f, env) then {RedispatchGate} else {}
    requires r.exit.None? <==> RedispatchPassed(f, env)
    requires (StartGate in Points(s.acts) <==> env.starting.Asked?)
    requires (StartAgent in Points(s.acts) <==> StartCalled(env)) && (Audit in Points(s.acts) <==> env.starting.Trusted?)
    requires Points(s.acts) <= {Audit, StartGate, StartAgent} && (s.exit.None? <==> TargetUp(env))
    requires (DelegationGate in Points(g.acts) <==> env.gating.Gated?) && (Audit in Points(g.acts) <==> env.gating.Bypassed?)
    requires Points(g.acts) <= {Audit, DelegationGate} && (g.exit.None? <==> DelegationPassed(env) && env.stillRunning)
    requires Points(p.acts) == {Provenance} && Points(dispatch) <= {ReplyWait, Drain, PumpJoin, Reap}
    ensures AskedAsNeeded(f, env, Points(Framed(Then(r, Then(s, Then(g, p))), dispatch)))
  {
    PointsChain(r, s, g, p);
    FramedPoints(Then(r, Then(s, Then(g, p))), dispatch);
    AskedBySets(f, env, Points(r.acts), Points(s.acts), Points(g.acts), Points(p.acts), Points(dispatch), g.exit.None?,
                p.exit.None?, Points(Framed(Then(r, Then(s, Then(g, p))), dispatch)));
  }

  lemma AskedBySets(f: Flags, env: Env, r: set<Point>, s: set<Point>, g: set<Point>, p: set<Point>, d: set<Point>,
                    gated: bool, logged: bool, asked: set<Point>)
    requires r == if RedispatchAsked(f, env) then {RedispatchGate} else {}
    requires (StartGate in s <==> env.starting.Asked?) && (StartAgent in s <==> StartCalled(env))
    requires (Audit in s <==> env.starting.Trusted?) && s <= {Audit, StartGate, StartAgent}
    requires (DelegationGate in g <==> env.gating.Gated?) && (Audit in g <==> env.gating.Bypassed?)
    requires g <= {Audit, DelegationGate} && (gated <==> DelegationPassed(env) && env.stillRunning)
    requires p == {Provenance} && d <= {ReplyWait, Drain, PumpJoin, Reap}
    requires var passed, up := RedispatchPassed(f, env), TargetUp(env);
      asked == r + (if passed then s else {}) + (if passed && up then g else {})
                 + (if passed && up && gated then p else {})
                 + (if passed && up && gated && logged then d else {})
    ensures AskedAsNeeded(f, env, asked)
  {
  }

  lemma PointsChain(r: Phase, s: Phase, g: Phase, p: Phase)
    ensures Points(Then(r, Then(s, Then(g, p))).acts) ==
            Points(r.acts)
            + (if r.exit.None? then Points(s.acts) else {})
            + (if r.exit.None? && s.exit.None? then Points(g.acts) else {})
            + (if r.exit.None? && s.exit.None? && g.exit.None? then Points(p.acts) else {})
  {
    PointsThen(g, p);
    PointsThen(s, Then(g, p));
    PointsThen(r, Then(s, Then(g, p)));
  }

  lemma FramedPoints(setup: Phase, dispatch: seq<Action>)
    ensures Points(Framed(setup, dispatch)) == Points(setup.acts) + (if setup.exit.None? then Points(dispatch) else {})
  {
    var rest := if setup.exit.None? then dispatch else [];
    PointsAppend([Register], setup.acts);
    PointsAppend([Register] + setup.acts, rest);
    PointsAppend([Register] + setup.acts + rest, [Resolve]);
    assert Points([Register]) == {} && Points([Resolve]) == {};
  }

  /** The operator's yes to starting the target comes right before the start. */
  lemma StartFollowsItsGate(env: Env, i: nat)
    requires env.starting.Asked? && i < |StartOf(env).acts| && StartOf(env).acts[i] == Await(StartAgent, env.starting.start)
    ensures i == 2 && StartOf(env).acts[..2] == [Await(StartGate, Ready), Heard(env.starting.answer.verdict)]
    ensures env.starting.answer.verdict != Deny
  {
  }

  /** Nothing is submitted before every gate has been asked. */
  lemma GatesComeBeforeSubmit(f: Flags, env: Env, i: nat, k: nat)
    requires i < |TraceOf(f, env)| && TraceOf(f, env)[i].Submit?
    requires k < |TraceOf(f, env)| && TraceOf(f, env)[k].Await?
    requires TraceOf(f, env)[k].point in {RedispatchGate, Audit, StartGate, StartAgent, DelegationGate, Provenance}
    ensures k < i
  {
    SetupOnlySetsUp(f, env);
    DispatchPoints(f, env);
    SetupComesFirst(SetupOf(f, env), DispatchActs(f, env), i, k);
  }

  lemma SetupComesFirst(setup: Phase, dispatch: seq<Action>, i: nat, k: nat)
    requires i < |Framed(setup, dispatch)| && k < |Framed(setup, dispatch)|
    requires !SettingUp(Framed(setup, dispatch)[i]) && Framed(setup, dispatch)[i] != Register
    requires SettingUp(Framed(setup, dispatch)[k])
    requires (forall a | a in setup.acts :: SettingUp(a)) && forall a | a in dispatch :: !SettingUp(a)
    ensures k < i
  {
    var trace, n := Framed(setup, dispatch), 1 + |setup.acts|;
    assert forall j | 1 <= j < n :: trace[j] == setup.acts[j - 1] && trace[j] in setup.acts;
    assert forall j | n <= j < |trace| - 1 :: trace[j] == dispatch[j - n] && trace[j] in dispatch;
  }

  // ---- The order of everything ----

  /** The place an action has in a call. What is heard, and the audit entries, belong
      to the gate they stand at. */
  function Stage(a: Action): Option<nat> {
    match a
    case Register => Some(0)
    case Await(RedispatchGate, _) => Some(1)
    case SpendOne => Some(2)
    case GrantCredit(_) => Some(2)
    case Await(StartGate, _) => Some(3)
    case Await(StartAgent, _) => Some(4)
    case Await(DelegationGate, _) => Some(5)
    case Await(Provenance, _) => Some(6)
    case Submit(_) => Some(7)
    case Increment => Some(8)
    case StartPump => Some(9)
    case Await(ReplyWait, _) => Some(10)
    case Await(Drain, _) => Some(11)
    case Await(PumpJoin, _) => Some(12)
    case Unsubscribe => Some(13)
    case SpawnStop(_) => Some(14)
    case Await(Reap, _) => Some(15)
    case Resolve => Some(16)
    case Await(Audit, _) => None
    case Heard(_) => None
  }

  ghost predicate InOrder(acts: seq<Action>, from: nat, to: nat) {
    && (forall i | 0 <= i < |acts| && Stage(acts[i]).Some? :: from <= Stage(acts[i]).value <= to)
    && (forall i, j | 0 <= i < j < |acts| && Stage(acts[i]).Some? && Stage(acts[j]).Some? ::
          Stage(acts[i]).value < Stage(acts[j]).value)
  }

  lemma OrderedAppend(a: seq<Action>, b: seq<Action>, from: nat, mid: nat, to: nat)
    requires from <= mid < to && InOrder(a, from, mid) && InOrder(b, mid + 1, to)
    ensures InOrder(a + b, from, to)
  {
  }

  lemma OrderedThen(p: Phase, q: Phase, from: nat, mid: nat, to: nat)
    requires from <= mid < to && InOrder(p.acts, from, mid) && InOrder(q.acts, mid + 1, to)
    ensures InOrder(Then(p, q).acts, from, to)
  {
    OrderedAppend(p.acts, q.acts, from, mid, to);
  }

  lemma AtMostOne(there: bool, a: Action, at: nat)
    requires Stage(a) == Some(at)
    ensures InOrder(if there then [a] else [], at, at)
  {
  }

  lemma RedispatchInOrder(f: Flags, env: Env)
    ensures InOrder(RedispatchOf(f, env).acts, 1, 2)
  {
  }

  lemma StartInOrder(env: Env)
    ensures InOrder(StartOf(env).acts, 3, 4)
  {
  }

  lemma GateInOrder(env: Env)
    ensures InOrder(GateOf(env).acts, 5, 5)
  {
  }

  lemma SetupInOrder(f: Flags, env: Env)
    ensures InOrder(SetupOf(f, env).acts, 1, 6)
  {
    var r, s, g, p := RedispatchOf(f, env), StartOf(env), GateOf(env), BestEffort(Provenance, env.provenance);
    RedispatchInOrder(f, env);
    StartInOrder(env);
    GateInOrder(env);
    AtMostOne(true, Await(Provenance, env.provenance), 6);
    OrderedThen(g, p, 5, 5, 6);
    OrderedThen(s, Then(g, p), 3, 4, 6);
    OrderedThen(r, Then(s, Then(g, p)), 1, 2, 6);
  }

  lemma DispatchInOrder(f: Flags, env: Env)
    ensures InOrder(DispatchActs(f, env), 7, 15)
  {
    if env.submission.Accepted? {
      var job := env.submission.job;
      assert InOrder(SubmitActs(f, env, job), 7, 9);
      assert InOrder(ReplyActs(env), 10, 11);
      CleanupInOrder(f, env, job);
      OrderedAppend(SubmitActs(f, env, job), ReplyActs(env), 7, 9, 11);
      OrderedAppend(SubmitActs(f, env, job) + ReplyActs(env), CleanupActs(f, env, job), 7, 11, 15);
    }
  }

  lemma CleanupInOrder(f: Flags, env: Env, job: nat)
    ensures InOrder(CleanupActs(f, env, job), 12, 15)
  {
    var join := if PumpLeft(env) then [Await(PumpJoin, env.pumpJoin)] else [];
    var leave := if env.subscribed then [Unsubscribe] else [];
    var stop := if StopSpawned(f, env) then [SpawnStop(job)] else [];
    var reap := if StopAwaited(f, env) then [Await(Reap, env.reap)] else [];
    AtMostOne(PumpLeft(env), Await(PumpJoin, env.pumpJoin), 12);
    AtMostOne(env.subscribed, Unsubscribe, 13);
    AtMostOne(StopSpawned(f, env), SpawnStop(job), 14);
    AtMostOne(StopAwaited(f, env), Await(Reap, env.reap), 15);
    ChainInOrder(join, leave, stop, reap);
  }

  lemma ChainInOrder(join: seq<Action>, leave: seq<Action>, stop: seq<Action>, reap: seq<Action>)
    requires InOrder(join, 12, 12) && InOrder(leave, 13, 13) && InOrder(stop, 14, 14) && InOrder(reap, 15, 15)
    ensures InOrder(join + leave + stop + reap, 12, 15)
  {
    OrderedAppend(join, leave, 12, 12, 13);
    OrderedAppend(join + leave, stop, 12, 13, 14);
    OrderedAppend(join + leave + stop, reap, 12, 14, 15);
  }

  /** Whatever happens, a call does things in one order and nothing twice: from the
      registration through the gates, the submission and the wait to the cleanup, the
      pump before the subscription, that before the stop of the child, and the
      resolve last. */
  lemma EverythingInOrder(f: Flags, env: Env)
    ensures InOrder(TraceOf(f, env), 0, 16)
  {
    var setup, dispatch := SetupOf(f, env), DispatchActs(f, env);
    var rest := if setup.exit.None? then dispatch else [];
    SetupInOrder(f, env);
    DispatchInOrder(f, env);
    assert InOrder([Register], 0, 0) && InOrder([Resolve], 16, 16);
    OrderedAppend([Register], setup.acts, 0, 0, 6);
    OrderedAppend([Register] + setup.acts, rest, 0, 6, 15);
    OrderedAppend([Register] + setup.acts + rest, [Resolve], 0, 15, 16);
  }

  // ---- Credits, waits and the cleanup, from the environment alone ----

  predicate IsCredit(a: Action) {
    a.SpendOne? || a.GrantCredit?
  }

  lemma OnlyTheGovernorCredits(f: Flags, env: Env, a: Action)
    requires IsCredit(a)
    ensures a in TraceOf(f, env) <==> a in RedispatchOf(f, env).acts
  {
    NoCreditsInSetup(env, a);
    NoCreditsInDispatch(f, env, a);
  }

  lemma NoCreditsInSetup(env: Env, a: Action)
    requires IsCredit(a)
    ensures a !in Then(StartOf(env), Then(GateOf(env), BestEffort(Provenance, env.provenance))).acts
  {
    assert a !in StartOf(env).acts;
    assert a !in GateOf(env).acts;
  }

  lemma NoCreditsInDispatch(f: Flags, env: Env, a: Action)
    requires IsCredit(a)
    ensures a !in DispatchActs(f, env)
  {
  }

  /** The operator was asked about the redispatch and did not say no. */
  predicate Reapproved(f: Flags, env: Env) {
    && !f.skipRedispatchGate && !f.swarmFanoutApproved && env.redispatchCount + 1 >= env.redispatchThreshold
    && env.redispatch.wake == Ready && env.redispatch.verdict in {Approve, Edit}
  }

  /** An answer "yes N" with N above one grants N; a plain yes, and an edit whatever
      number it mentions, spend one. */
  lemma CreditsExactly(f: Flags, env: Env, n: int)
    ensures GrantCredit(n) in TraceOf(f, env) <==>
            Reapproved(f, env) && env.redispatch.verdict == Approve && n == env.redispatch.credit && n > 1
    ensures SpendOne in TraceOf(f, env) <==>
            Reapproved(f, env) && (env.redispatch.verdict == Edit || env.redispatch.credit <= 1)
  {
    OnlyTheGovernorCredits(f, env, GrantCredit(n));
    OnlyTheGovernorCredits(f, env, SpendOne);
  }

  lemma SubmitWaits(f: Flags, env: Env, job: nat)
    ensures StartPump in SubmitActs(f, env, job) <==> env.subscribed && env.callerHasPane
    ensures forall a | a in SubmitActs(f, env, job) :: !a.Await?
  {
  }

  lemma ReplyWaits(env: Env)
    ensures Await(ReplyWait, env.reply) in ReplyActs(env)
    ensures Await(Drain, env.drain) in ReplyActs(env) <==>
            env.subscribed && env.callerHasPane && env.reply == Ready && !env.jobFailed
    ensures forall a | a in ReplyActs(env) :: a.Await? && a.point in {ReplyWait, Drain}
  {
  }

  lemma CleanupWaits(f: Flags, env: Env, job: nat)
    ensures Await(PumpJoin, env.pumpJoin) in CleanupActs(f, env, job) <==>
            && env.subscribed && env.callerHasPane
            && (env.reply != Ready || env.jobFailed || (env.drain != Ready && !env.drain.Cancelled?))
    ensures Await(Reap, env.reap) in CleanupActs(f, env, job) <==>
            && env.reply != Ready && env.reply != Cancelled(true) && !f.detach
            && !(env.subscribed && env.callerHasPane && env.pumpJoin == Cancelled(true))
    ensures forall a | a in CleanupActs(f, env, job) :: a != StartPump && (a.Await? ==> a.point in {PumpJoin, Reap})
  {
  }

  lemma DispatchWaits(f: Flags, env: Env)
    requires env.submission.Accepted?
    ensures WaitsAsNeeded(f, env, true, DispatchActs(f, env))
  {
    var job := env.submission.job;
    SubmitWaits(f, env, job);
    ReplyWaits(env);
    CleanupWaits(f, env, job);
    WaitsOfParts(f, env, SubmitActs(f, env, job), ReplyActs(env), CleanupActs(f, env, job));
  }

  lemma WaitsOfParts(f: Flags, env: Env, submit: seq<Action>, reply: seq<Action>, cleanup: seq<Action>)
    requires StartPump in submit <==> env.subscribed && env.callerHasPane
    requires forall a | a in submit :: !a.Await?
    requires Await(ReplyWait, env.reply) in reply
    requires Await(Drain, env.drain) in reply <==>
             env.subscribed && env.callerHasPane && env.reply == Ready && !env.jobFailed
    requires forall a | a in reply :: a.Await? && a.point in {ReplyWait, Drain}
    requires Await(PumpJoin, env.pumpJoin) in cleanup <==>
             && env.subscribed && env.callerHasPane
             && (env.reply != Ready || env.jobFailed || (env.drain != Ready && !env.drain.Cancelled?))
    requires Await(Reap, env.reap) in cleanup <==>
             && env.reply != Ready && env.reply != Cancelled(true) && !f.detach
             && !(env.subscribed && env.callerHasPane && env.pumpJoin == Cancelled(true))
    requires forall a | a in cleanup :: a != StartPump && (a.Await? ==> a.point in {PumpJoin, Reap})
    ensures WaitsAsNeeded(f, env, true, submit + reply + cleanup)
  {
    var all := submit + reply + cleanup;
    assert forall a :: a in all <==> a in submit || a in reply || a in cleanup;
  }

  /** `submitted`: the job was taken. */
  predicate WaitsAsNeeded(f: Flags, env: Env, submitted: bool, trace: seq<Action>) {
    && (Await(ReplyWait, env.reply) in trace <==> submitted)
    && (StartPump in trace <==> submitted && env.subscribed && env.callerHasPane)
    && (Await(Drain, env.drain) in trace <==>
          submitted && env.subscribed && env.callerHasPane && env.reply == Ready && !env.jobFailed)
    && (Await(PumpJoin, env.pumpJoin) in trace <==>
          && submitted && env.subscribed && env.callerHasPane
          && (env.reply != Ready || env.jobFailed || (env.drain != Ready && !env.drain.Cancelled?)))
    && (Await(Reap, env.reap) in trace <==>
          && submitted && env.reply != Ready && env.reply != Cancelled(true) && !f.detach
          && !(env.subscribed && env.callerHasPane && env.pumpJoin == Cancelled(true)))
  }

  /** After the submission every wait takes place exactly when its object is there: the
      pump when the caller has a pane and the child's output was subscribed to, its
      drain after a good reply, its join otherwise, and the wait for the stop of an
      abandoned child unless the call itself is being cancelled. */
  lemma WaitsExactly(f: Flags, env: Env)
    ensures WaitsAsNeeded(f, env, Submits(f, env), TraceOf(f, env))
    ensures Unsubscribe in TraceOf(f, env) <==> Cleared(f, env) && env.subscribed
  {
    ClearedExactly(f, env);
    SetupOnlySetsUp(f, env);
    var setup, acts := SetupOf(f, env), DispatchActs(f, env);
    FramedMembers(setup, acts, Await(ReplyWait, env.reply));
    FramedMembers(setup, acts, StartPump);
    FramedMembers(setup, acts, Await(Drain, env.drain));
    FramedMembers(setup, acts, Await(PumpJoin, env.pumpJoin));
    FramedMembers(setup, acts, Await(Reap, env.reap));
    FramedMembers(setup, acts, Unsubscribe);
    DispatchUnsubscribes(f, env);
    if env.submission.Accepted? {
      DispatchWaits(f, env);
    }
  }

  lemma DispatchUnsubscribes(f: Flags, env: Env)
    ensures Unsubscribe in DispatchActs(f, env) <==> env.subscribed
    ensures !env.submission.Accepted? ==> forall a | a in DispatchActs(f, env) :: a == Unsubscribe
  {
  }

  // ---- How a call ends ----

  /** The set-up stops at an await that ended badly: cancelled, or failed with an
      error that no handler takes. */
  predicate StoppedBy(f: Flags, env: Env, cancelled: bool) {
    || (RedispatchAsked(f, env) && Ends(env.redispatch.wake, cancelled))
    || (RedispatchPassed(f, env) && env.starting.Asked? && Ends(env.starting.answer.wake, cancelled))
    || (RedispatchPassed(f, env) && env.starting.Trusted? && cancelled && env.starting.audit.Cancelled?)
    || (RedispatchPassed(f, env) && StartCalled(env) && cancelled && env.starting.start.Cancelled?)
    || (RedispatchPassed(f, env) && TargetUp(env) && env.gating.Gated? && Ends(env.gating.answer.wake, cancelled))
    || (RedispatchPassed(f, env) && TargetUp(env) && env.gating.Bypassed? && cancelled && env.gating.audit.Cancelled?)
    || (RedispatchPassed(f, env) && TargetUp(env) && DelegationPassed(env) && env.stillRunning
        && cancelled && env.provenance.Cancelled?)
  }

  predicate Ends(w: Wake, cancelled: bool) {
    if cancelled then w.Cancelled? else w == OtherErr
  }

  lemma SetupExits(f: Flags, env: Env)
    ensures SetupOf(f, env).exit == Some(CancelRaised) <==> StoppedBy(f, env, true)
    ensures SetupOf(f, env).exit == Some(ErrorRaised) <==> StoppedBy(f, env, false)
    ensures SetupOf(f, env).exit != Some(Replied)
  {
  }

  /** The call replies exactly when it submitted, the job answered without an error,
      and the drain of a running echo pump did not fail. */
  lemma RepliesExactly(f: Flags, env: Env)
    ensures ExitOf(f, env) == Replied <==>
            Submits(f, env) && Answered(env) && (Pump(env) ==> env.drain == Ready || env.drain.Cancelled?)
  {
    ClearedExactly(f, env);
    SetupExits(f, env);
  }

  /** It ends cancelled exactly when an await of the set-up, the wait for the reply,
      the join of a remaining pump (by this task's cancellation) or the wait for the
      stop was cancelled. */
  lemma CancelledExactly(f: Flags, env: Env)
    ensures ExitOf(f, env) == CancelRaised <==>
            || StoppedBy(f, env, true)
            || (Submits(f, env) && (env.reply.Cancelled? || JoinCancelled(env) || (StopAwaited(f, env) && env.reap.Cancelled?)))
  {
    ClearedExactly(f, env);
    SetupExits(f, env);
  }

  /** It raises an error exactly when a gate failed unexpectedly, the runner did not
      take the job, or the reply or the drain failed and no cancellation followed. */
  lemma RaisesExactly(f: Flags, env: Env)
    ensures ExitOf(f, env) == ErrorRaised <==>
            || StoppedBy(f, env, false)
            || (Cleared(f, env) && !env.submission.Accepted?)
            || (Submits(f, env) && !JoinCancelled(env) && !(StopAwaited(f, env) && env.reap.Cancelled?)
                && (env.reply == OtherErr
                    || (Answered(env) && Pump(env) && env.drain in {TimedOut, RuntimeErr, OtherErr})))
  {
    ClearedExactly(f, env);
    SetupExits(f, env);
  }

  // ---- Cancellations ----

  /** This task was asked to cancel at some await. */
  predicate CancelDelivered(trace: seq<Action>) {
    exists p :: Await(p, Cancelled(true)) in trace
  }

  lemma SetupHonoursCancel(f: Flags, env: Env)
    ensures CancelDelivered(SetupOf(f, env).acts) ==> SetupOf(f, env).exit == Some(CancelRaised)
  {
    var r, s, g := RedispatchOf(f, env), StartOf(env), GateOf(env);
    assert CancelDelivered(r.acts) ==> r.exit == Some(CancelRaised);
    assert CancelDelivered(s.acts) ==> s.exit == Some(CancelRaised);
    assert CancelDelivered(g.acts) ==> g.exit == Some(CancelRaised);
  }

  predicate LostInDrain(f: Flags, env: Env) {
    Submits(f, env) && Answered(env) && Pump(env) && env.drain == Cancelled(true)
  }

  lemma DispatchHonoursCancel(f: Flags, env: Env)
    requires env.submission.Accepted?
    ensures CancelDelivered(DispatchActs(f, env)) && DispatchExit(f, env) != CancelRaised <==>
            Answered(env) && Pump(env) && env.drain == Cancelled(true)
  {
    var acts := DispatchActs(f, env);
    if Answered(env) && Pump(env) && env.drain == Cancelled(true) {
      assert Await(Drain, Cancelled(true)) in acts;
    }
  }

  /** A call that was asked to cancel ends cancelled, except exactly when the request
      arrives while the reply is already in hand and the echo pump is being drained:
      then it is lost, and the call returns the reply. */
  lemma CancellationIsLostExactlyInDrain(f: Flags, env: Env)
    ensures CancelDelivered(TraceOf(f, env)) && ExitOf(f, env) != CancelRaised <==> LostInDrain(f, env)
    ensures LostInDrain(f, env) ==> ExitOf(f, env) == Replied
  {
    ClearedExactly(f, env);
    SetupHonoursCancel(f, env);
    if env.submission.Accepted? {
      DispatchHonoursCancel(f, env);
    }
    FramedCancels(SetupOf(f, env), DispatchActs(f, env));
  }

  lemma FramedCancels(setup: Phase, dispatch: seq<Action>)
    ensures CancelDelivered(Framed(setup, dispatch)) <==>
            CancelDelivered(setup.acts) || (setup.exit.None? && CancelDelivered(dispatch))
  {
    var rest := if setup.exit.None? then dispatch else [];
    CancelSplits([Register], setup.acts);
    CancelSplits([Register] + setup.acts, rest);
    CancelSplits([Register] + setup.acts + rest, [Resolve]);
  }

  lemma CancelSplits(s: seq<Action>, t: seq<Action>)
    ensures CancelDelivered(s + t) <==> CancelDelivered(s) || CancelDelivered(t)
  {
    if p :| Await(p, Cancelled(true)) in s { assert Await(p, Cancelled(true)) in s + t; }
    if p :| Await(p, Cancelled(true)) in t { assert Await(p, Cancelled(true)) in s + t; }
  }

  /** An ordinary call to a running target, cancelled at that moment. */
  const UNLUCKY := Env(
    0, 3, Answer(Ready, Approve, 0), Running, Ungated, true, Ready, true, Accepted(7),
    true, Ready, false, Cancelled(true), Ready, Ready)

  lemma ACancellationIsLost(f: Flags)
    ensures Await(Drain, Cancelled(true)) in TraceOf(f, UNLUCKY) && ExitOf(f, UNLUCKY) == Replied
  {
    assert Await(Drain, Cancelled(true)) in DispatchActs(f, UNLUCKY);
  }

  // ---- Clean exits ----

  function Count(acts: seq<Action>, a: Action): nat {
    if acts == [] then 0 else (if acts[0] == a then 1 else 0) + Count(acts[1..], a)
  }

  lemma {:induction false} CountAppend(s: seq<Action>, t: seq<Action>, a: Action)
    ensures Count(s + t, a) == Count(s, a) + Count(t, a)
  {
    if s == [] {
      assert s + t == t;
    } else {
      assert (s + t)[1..] == s[1..] + t;
      CountAppend(s[1..], t, a);
    }
  }

  lemma {:induction false} CountNone(s: seq<Action>, a: Action)
    requires a !in s
    ensures Count(s, a) == 0
  {
    if s != [] {
      assert s[0] in s && forall x | x in s[1..] :: x in s;
      CountNone(s[1..], a);
    }
  }

  /** No exit leaks the registration or resolves it twice, and the redispatch counter
      moves exactly for a counted submission. */
  lemma ExitsAreClean(f: Flags, env: Env)
    ensures TraceOf(f, env)[0] == Register && Last(TraceOf(f, env)) == Resolve
    ensures Count(TraceOf(f, env), Resolve) == 1
    ensures Count(TraceOf(f, env), Increment) == if Submits(f, env) && !f.skipRedispatchGate then 1 else 0
  {
    ClearedExactly(f, env);
    SetupOnlySetsUp(f, env);
    DispatchCounts(f, env);
    FramedCounts(SetupOf(f, env), DispatchActs(f, env));
  }

  /** A child is stopped exactly when it was submitted, has not replied, and was not
      detached. */
  lemma StopsExactly(f: Flags, env: Env, job: nat)
    ensures SpawnStop(job) in TraceOf(f, env) <==> Submit(job) in TraceOf(f, env) && env.reply != Ready && !f.detach
  {
    SetupOnlySetsUp(f, env);
    FramedMembers(SetupOf(f, env), DispatchActs(f, env), SpawnStop(job));
    FramedMembers(SetupOf(f, env), DispatchActs(f, env), Submit(job));
    DispatchStops(f, env, job);
  }

  lemma FramedCounts(setup: Phase, dispatch: seq<Action>)
    requires forall a | a in setup.acts :: SettingUp(a)
    ensures forall a | a in {Resolve, Increment} ::
              Count(Framed(setup, dispatch), a) ==
              (if a == Resolve then 1 else 0) + (if setup.exit.None? then Count(dispatch, a) else 0)
  {
    var rest := if setup.exit.None? then dispatch else [];
    forall a | a in {Resolve, Increment}
      ensures Count(Framed(setup, dispatch), a) ==
              (if a == Resolve then 1 else 0) + (if setup.exit.None? then Count(dispatch, a) else 0)
    {
      CountNone(setup.acts, a);
      CountNone([Register], a);
      CountAppend([Register], setup.acts, a);
      CountAppend([Register] + setup.acts, rest, a);
      CountAppend([Register] + setup.acts + rest, [Resolve], a);
    }
  }

  lemma DispatchStops(f: Flags, env: Env, job: nat)
    ensures SpawnStop(job) in DispatchActs(f, env) <==> Submit(job) in DispatchActs(f, env) && env.reply != Ready && !f.detach
  {
  }

  lemma DispatchCounts(f: Flags, env: Env)
    ensures Count(DispatchActs(f, env), Resolve) == 0
    ensures Count(DispatchActs(f, env), Increment) == if env.submission.Accepted? && !f.skipRedispatchGate then 1 else 0
  {
    DispatchOnlyWaits(f, env);
    CountNone(DispatchActs(f, env), Resolve);
    if env.submission.Accepted? {
      var job := env.submission.job;
      CountNone(ReplyActs(env), Increment);
      CountNone(CleanupActs(f, env, job), Increment);
      CountAppend(SubmitActs(f, env, job), ReplyActs(env), Increment);
      CountAppend(SubmitActs(f, env, job) + ReplyActs(env), CleanupActs(f, env, job), Increment);
      SubmitCounts(f, env, job);
    } else {
      CountNone(DispatchActs(f, env), Increment);
    }
  }

  lemma DispatchOnlyWaits(f: Flags, env: Env)
    ensures Resolve !in DispatchActs(f, env) && Increment !in ReplyActs(env)
    ensures !env.submission.Accepted? ==> Increment !in DispatchActs(f, env)
    ensures env.submission.Accepted? ==> Increment !in CleanupActs(f, env, env.submission.job)
  {
  }

  lemma SubmitCounts(f: Flags, env: Env, job: nat)
    ensures Count(SubmitActs(f, env, job), Increment) == if f.skipRedispatchGate then 0 else 1
  {
    var counted := if f.skipRedispatchGate then [] else [Increment];
    var pump := if Pump(env) then [StartPump] else [];
    CountNone(pump, Increment);
    CountNone([Submit(job)], Increment);
    CountAppend([Submit(job)], counted, Increment);
    CountAppend([Submit(job)] + counted, pump, Increment);
  }
}
