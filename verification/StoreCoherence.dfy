/** What has to stay true between the store's cache and its database, whatever
    fails (`src/salient_core/bus/_context_store.py:548-678, 729-742`). */
module StoreCoherence {
  import opened Wrappers
  import opened Sequences
  import opened EventRetention
  import opened Transactions
  import AuditMirror

  type Slot = (string, string)  // agent, key

  datatype Entry = Entry(value: string, ts: real)

  /** The tables this model follows. */
  datatype Tables = Tables(context: map<Slot, Entry>, meta: map<string, Entry>, events: Events,
                           mirror: seq<AuditMirror.Row>)

  /** `_mem` and `_meta`. */
  datatype Cache = Cache(mem: map<Slot, Entry>, meta: map<string, string>)

  /** `view` is what the connection sees: what a commit would write. `open` is
      `in_transaction`. */
  datatype Database = Database(disk: Tables, view: Tables, open: bool, connected: bool)

  datatype Store = Store(db: Database, cache: Cache)

  datatype Op =
    | Write(slot: Slot, entry: Entry)
    | Delete(slot: Slot)
    | MetaSet(name: string, entry: Entry)
    | MetaDelete(name: string)
    | CollectJobKeys
    // the tables that are not cached
    | InsertEvent(row: nat, event: Event)
    | DropEvents(rows: set<nat>)
    | InsertMirror(mirrored: AuditMirror.Row)

  /** How a rollback ends: done, with a database error, or with anything else. */
  datatype Rollback = RolledBack | Refused | Escaped

  /** What goes wrong inside one transaction. A failing commit may or may not have
      taken effect. If nothing took effect, the failure leaves the transaction open
      (`leftOpen`) with the connection seeing anything (`left`), or closed with
      nothing pending. `interrupt`: what was raised is not a database error. */
  datatype Fault = Fault(bodyFails: bool, commitFails: bool, tookEffect: bool, interrupt: bool,
                         left: Tables, leftOpen: bool, rollback: Rollback)
  {
    predicate GoesThrough() {
      !bodyFails && !commitFails
    }

    predicate Lands() {
      !bodyFails && (commitFails ==> tookEffect)
    }

    function Ends(): Outcome {
      Outcome(if GoesThrough() then Returned
              else if interrupt || rollback.Escaped? then Interrupted
              else DatabaseError,
              Lands())
    }
  }

  predicate IsJobKey(key: string) {
    "job_" <= key
  }

  // ---- What an operation means, on the tables and on the cache ----

  function Effect(t: Tables, op: Op): Tables {
    match op
    case Write(slot, entry) => t.(context := t.context[slot := entry])
    case Delete(slot) => t.(context := t.context - {slot})
    case MetaSet(name, entry) => t.(meta := t.meta[name := entry])
    case MetaDelete(name) => t.(meta := t.meta - {name})
    case CollectJobKeys => t.(context := map s | s in t.context && !IsJobKey(s.1) :: t.context[s])
    case InsertEvent(row, event) => t.(events := t.events[row := event])
    case DropEvents(rows) => t.(events := t.events - rows)
    case InsertMirror(mirrored) => t.(mirror := AuditMirror.Insert(t.mirror, mirrored))
  }

  function CacheEffect(c: Cache, op: Op): Cache {
    match op
    case Write(slot, entry) => c.(mem := c.mem[slot := entry])
    case Delete(slot) => c.(mem := c.mem - {slot})
    case MetaSet(name, entry) => c.(meta := c.meta[name := entry.value])
    case MetaDelete(name) => c.(meta := c.meta - {name})
    case CollectJobKeys => c.(mem := map s | s in c.mem && !IsJobKey(s.1) :: c.mem[s])
    case InsertEvent(_, _) => c
    case DropEvents(_) => c
    case InsertMirror(_) => c
  }

  /** What `_hydrate` reads. */
  function CacheOf(t: Tables): Cache {
    Cache(t.context, map name | name in t.meta :: t.meta[name].value)
  }

  // ---- One transaction: `_txn` ----

  /** Refuse a connection that is closed or dirty. Otherwise run the statements on
      what the connection sees and commit; on a failure roll back, and drop the
      connection if that meets a database error too. */
  function Transact(db: Database, op: Op, fault: Fault): (Database, Outcome) {
    if !db.connected || db.open then (db, REFUSED)
    else
      var ran := db.(view := if fault.bodyFails then fault.left else Effect(db.view, op), open := true);
      if fault.GoesThrough() then (ran.(disk := ran.view, open := false), fault.Ends())
      else
        var failed :=
          if fault.Lands() then ran.(disk := ran.view, open := false)
          else ran.(view := if fault.leftOpen then fault.left else ran.disk, open := fault.leftOpen);
        (match fault.rollback
         case RolledBack => failed.(view := failed.disk, open := false)
         case Refused => failed.(connected := false)
         case Escaped => failed,
         fault.Ends())
  }

  /** A transaction would start from the tables as they are, or be refused. */
  predicate Unbroken(db: Database) {
    db.connected && !db.open ==> db.view == db.disk
  }

  predicate Usable(db: Database) {
    db.connected && !db.open
  }

  /** Whatever fails, and whatever that leaves in the connection, a transaction is
      all or nothing, and nothing of it is left for a later commit. */
  lemma TransactIsAtomic(db: Database, op: Op, fault: Fault)
    requires Unbroken(db)
    ensures var (after, out) := Transact(db, op, fault);
      && Unbroken(after)
      && out == (if Usable(db) then fault.Ends() else REFUSED)
      && after.disk == (if out.landed then Effect(db.disk, op) else db.disk)
      && (after.connected <==> db.connected && !(Usable(db) && !fault.GoesThrough() && fault.rollback.Refused?))
  {
  }

  /** Why the rollback is there, and the dropped connection: leave one out, and the
      next commit flushes what was rejected. `dirty` is the connection either slip
      leaves behind; only the guard on entry stands in the way. */
  lemma DirtyConnectionsFlush(db: Database, rejected: Op, next: Op, fault: Fault)
    requires Usable(db) && Unbroken(db) && fault.GoesThrough()
    ensures var dirty := db.(view := Effect(db.view, rejected), open := true);
      && Transact(dirty, next, fault) == (dirty, REFUSED)
      && Transact(dirty.(open := false), next, fault).0.disk == Effect(Effect(db.disk, rejected), next)
  {
  }

  /** Why the guard is there: a rollback that is itself interrupted keeps the
      connection, with whatever is pending in it. */
  lemma GuardHoldsTheFlush(db: Database, rejected: Op, failing: Fault, next: Op, fault: Fault)
    requires Usable(db) && Unbroken(db)
    requires !failing.Lands() && failing.leftOpen && failing.rollback.Escaped?
    ensures var (after, out) := Transact(db, rejected, failing);
      && out == Outcome(Interrupted, false)
      && after == db.(view := failing.left, open := true)
      && Transact(after, next, fault) == (after, REFUSED)
  {
  }

  // ---- One operation on the store ----

  ghost predicate Agrees(s: Store) {
    s.cache == CacheOf(s.db.disk)
  }

  /** With a connection: commit first, and publish to the cache only if that
      returned. Without one the cache alone changes, except that the job-key sweep
      does nothing and nothing is recorded. */
  ghost predicate Step(s: Store, op: Op, fault: Fault, out: Outcome, t: Store) {
    if s.db.connected then
      && (t.db, out) == Transact(s.db, op, fault)
      && t.cache == if out.ending.Returned? then CacheEffect(s.cache, op) else s.cache
    else
      && out == Outcome(Returned, false) && t.db == s.db
      && t.cache == if op.CollectJobKeys? then s.cache else CacheEffect(s.cache, op)
  }

  lemma CacheFollows(t: Tables, op: Op)
    ensures CacheEffect(CacheOf(t), op) == CacheOf(Effect(t, op))
  {
    assert CacheEffect(CacheOf(t), op).meta == CacheOf(Effect(t, op)).meta;
  }

  lemma StepKeepsUnbroken(s: Store, op: Op, fault: Fault, out: Outcome, t: Store)
    requires Unbroken(s.db) && Step(s, op, fault, out, t)
    ensures Unbroken(t.db)
    ensures t.db.disk == if out.landed then Effect(s.db.disk, op) else s.db.disk
    ensures t.db.connected ==> s.db.connected
    ensures s.db.connected && !out.ending.Returned? ==> t.cache == s.cache
  {
    TransactIsAtomic(s.db, op, fault);
  }

  /** One operation on an open store keeps cache and tables equal exactly when it
      does not raise after its commit took effect, or had no effect to speak of. */
  lemma StepAgreesExactly(s: Store, op: Op, fault: Fault, out: Outcome, t: Store)
    requires Unbroken(s.db) && s.db.connected && Agrees(s) && Step(s, op, fault, out, t)
    ensures Agrees(t) <==> !out.Silent() || CacheOf(Effect(s.db.disk, op)) == CacheOf(s.db.disk)
  {
    TransactIsAtomic(s.db, op, fault);
    CacheFollows(s.db.disk, op);
  }

  /** An interrupt between the commit and its return: the note is in the database and
      not in the cache, and a restart brings it back. */
  lemma AnInterruptSplitsThem(t: Tables, slot: Slot, entry: Entry)
    requires slot !in t.context
    ensures var s := Store(Database(t, t, false, true), CacheOf(t));
      var fault := Fault(false, true, true, true, t, false, RolledBack);
      var (db, out) := Transact(s.db, Write(slot, entry), fault);
      && out == Outcome(Interrupted, true) && Unbroken(s.db) && Agrees(s)
      && slot !in s.cache.mem && CacheOf(db.disk).mem == s.cache.mem[slot := entry]
  {
  }

  // ---- Runs ----

  datatype Done = Done(op: Op, fault: Fault, out: Outcome)

  ghost predicate Run(states: seq<Store>, trace: seq<Done>) {
    && |states| == |trace| + 1
    && forall i | 0 <= i < |trace| :: Step(states[i], trace[i].op, trace[i].fault, trace[i].out, states[i + 1])
  }

  /** What the operations that returned (`landed` false), or those that took effect
      (`landed` true), make of `t` one after the other. */
  function Replay(t: Tables, trace: seq<Done>, landed: bool): Tables {
    if trace == [] then t
    else
      var u, d := Replay(t, Front(trace), landed), Last(trace);
      if (if landed then d.out.landed else d.out.ending.Returned?) then Effect(u, d.op) else u
  }

  /** Whatever fails along the way, the database holds exactly the operations whose
      commit took effect, in order: nothing that was rejected is ever flushed by a
      later commit. */
  lemma {:induction false} DiskIsReplayOfLanded(states: seq<Store>, trace: seq<Done>, n: nat)
    requires Run(states, trace) && Unbroken(states[0].db) && n <= |trace|
    ensures Unbroken(states[n].db)
    ensures states[n].db.disk == Replay(states[0].db.disk, trace[..n], true)
    decreases n
  {
    if n > 0 {
      DiskIsReplayOfLanded(states, trace, n - 1);
      var d := trace[n - 1];
      StepKeepsUnbroken(states[n - 1], d.op, d.fault, d.out, states[n]);
      assert Front(trace[..n]) == trace[..n - 1];
    }
  }

  /** While there is a connection the cache holds exactly the operations that returned. */
  lemma {:induction false} CacheIsReplayOfReturned(states: seq<Store>, trace: seq<Done>, n: nat)
    requires Run(states, trace) && Agrees(states[0])
    requires n <= |trace| && forall i | 0 <= i < n :: states[i].db.connected
    ensures states[n].cache == CacheOf(Replay(states[0].db.disk, trace[..n], false))
    decreases n
  {
    if n > 0 {
      CacheIsReplayOfReturned(states, trace, n - 1);
      var d := trace[n - 1];
      assert Step(states[n - 1], d.op, d.fault, d.out, states[n]);
      assert Front(trace[..n]) == trace[..n - 1];
      CacheFollows(Replay(states[0].db.disk, trace[..n - 1], false), d.op);
    }
  }

  /** In any run on an open store: cache and tables agree exactly when the operations
      that took effect and those that returned come to the same. */
  lemma RunAgreesExactly(states: seq<Store>, trace: seq<Done>, n: nat)
    requires Run(states, trace) && Unbroken(states[0].db) && Agrees(states[0])
    requires n <= |trace| && forall i | 0 <= i < n :: states[i].db.connected
    ensures var disk := states[0].db.disk;
      Agrees(states[n]) <==> CacheOf(Replay(disk, trace[..n], true)) == CacheOf(Replay(disk, trace[..n], false))
  {
    DiskIsReplayOfLanded(states, trace, n);
    CacheIsReplayOfReturned(states, trace, n);
  }

  ghost predicate NothingSilent(trace: seq<Done>) {
    forall i | 0 <= i < |trace| :: !trace[i].out.Silent()
  }

  lemma {:induction false} SameReplays(states: seq<Store>, trace: seq<Done>, n: nat)
    requires Run(states, trace) && NothingSilent(trace)
    requires n <= |trace| && forall i | 0 <= i < n :: states[i].db.connected
    ensures Replay(states[0].db.disk, trace[..n], true) == Replay(states[0].db.disk, trace[..n], false)
    decreases n
  {
    if n > 0 {
      SameReplays(states, trace, n - 1);
      var d := trace[n - 1];
      assert Step(states[n - 1], d.op, d.fault, d.out, states[n]);
      assert Front(trace[..n]) == trace[..n - 1];
    }
  }

  lemma {:induction false} OnceLostAlwaysLost(states: seq<Store>, trace: seq<Done>, n: nat, m: nat)
    requires Run(states, trace) && n <= m <= |trace| && !states[n].db.connected
    ensures states[m].db == states[n].db
    decreases m
  {
    if n < m {
      OnceLostAlwaysLost(states, trace, n, m - 1);
      var d := trace[m - 1];
      assert Step(states[m - 1], d.op, d.fault, d.out, states[m]);
    }
  }

  /** The operations before the connection was lost; all of them if it never was. */
  ghost predicate ConnectedFor(states: seq<Store>, trace: seq<Done>, n: nat)
    requires Run(states, trace)
  {
    && n <= |trace|
    && (forall i | 0 <= i < n :: states[i].db.connected)
    && (n < |trace| ==> !states[n].db.connected)
  }

  /** So, as long as no operation raises after its commit took effect, the database
      holds exactly the operations that returned while there was a connection; the
      cache agrees with it as long as the connection lasts, and so does a cache
      hydrated from it afterwards. */
  lemma DiskIsReplayOfAccepted(states: seq<Store>, trace: seq<Done>, n: nat)
    requires Run(states, trace) && Unbroken(states[0].db) && Agrees(states[0]) && NothingSilent(trace)
    requires ConnectedFor(states, trace, n)
    ensures Last(states).db.disk == Replay(states[0].db.disk, trace[..n], false)
    ensures forall i | 0 <= i <= n :: Agrees(states[i])
  {
    DiskIsReplayOfLanded(states, trace, n);
    SameReplays(states, trace, n);
    if n < |trace| {
      OnceLostAlwaysLost(states, trace, n, |trace|);
    }
    forall i | 0 <= i <= n ensures Agrees(states[i]) {
      RunAgreesExactly(states, trace, i);
      SameReplays(states, trace, i);
    }
  }

  // ---- The last write wins ----

  /** A key of one agent, or a singleton. */
  datatype Place = InContext(slot: Slot) | InMeta(name: string)

  /** Put an entry there, or delete what is there. */
  function Put(p: Place, v: Option<Entry>): Op {
    match (p, v)
    case (InContext(slot), Some(entry)) => Write(slot, entry)
    case (InContext(slot), None) => Delete(slot)
    case (InMeta(name), Some(entry)) => MetaSet(name, entry)
    case (InMeta(name), None) => MetaDelete(name)
  }

  function Held(t: Tables, p: Place): Option<Entry> {
    match p
    case InContext(slot) => if slot in t.context then Some(t.context[slot]) else None
    case InMeta(name) => if name in t.meta then Some(t.meta[name]) else None
  }

  /** `op` leaves alone what is held at `p`: it puts nothing there, and is no sweep
      that takes it. */
  ghost predicate Spares(op: Op, p: Place) {
    && (forall v :: op != Put(p, v))
    && (op.CollectJobKeys? && p.InContext? ==> !IsJobKey(p.slot.1))
  }

  lemma PutHolds(t: Tables, op: Op, p: Place, v: Option<Entry>)
    ensures op == Put(p, v) ==> Held(Effect(t, op), p) == v
    ensures Spares(op, p) ==> Held(Effect(t, op), p) == Held(t, p)
  {
    if Spares(op, p) {
      assert op != Put(p, None);
      match op {
        case Write(_, entry) => assert op != Put(p, Some(entry));
        case MetaSet(_, entry) => assert op != Put(p, Some(entry));
        case _ =>
      }
    }
  }

  /** The operation counts in a replay. */
  predicate CountsIn(d: Done, landed: bool) {
    if landed then d.out.landed else d.out.ending.Returned?
  }

  lemma {:induction false} LastPutHolds(t: Tables, trace: seq<Done>, landed: bool, i: nat, p: Place, v: Option<Entry>)
    requires i < |trace| && trace[i].op == Put(p, v) && CountsIn(trace[i], landed)
    requires forall j | i < j < |trace| && CountsIn(trace[j], landed) :: Spares(trace[j].op, p)
    ensures Held(Replay(t, trace, landed), p) == v
    decreases |trace|
  {
    var before := Replay(t, Front(trace), landed);
    PutHolds(before, Last(trace).op, p, v);
    if i < |trace| - 1 {
      LastPutHolds(t, Front(trace), landed, i, p, v);
    }
  }

  /** In every run the database holds at each place what the last operation that took
      effect there put, and while there is a connection the cache holds there what the
      last one that returned put: no other operation, whatever it failed on, shows. */
  lemma LastPutWins(states: seq<Store>, trace: seq<Done>, n: nat, i: nat, p: Place, v: Option<Entry>, landed: bool)
    requires Run(states, trace) && Unbroken(states[0].db) && Agrees(states[0]) && i < n <= |trace|
    requires trace[i].op == Put(p, v) && CountsIn(trace[i], landed)
    requires forall j | i < j < n && CountsIn(trace[j], landed) :: Spares(trace[j].op, p)
    ensures landed ==> Held(states[n].db.disk, p) == v
    ensures !landed && (forall k | 0 <= k < n :: states[k].db.connected) ==>
              match p
              case InContext(slot) => v == if slot in states[n].cache.mem then Some(states[n].cache.mem[slot]) else None
              case InMeta(name) => if v.None? then name !in states[n].cache.meta
                                   else name in states[n].cache.meta && states[n].cache.meta[name] == v.value.value
  {
    LastPutHolds(states[0].db.disk, trace[..n], landed, i, p, v);
    if landed {
      DiskIsReplayOfLanded(states, trace, n);
    } else if forall k | 0 <= k < n :: states[k].db.connected {
      CacheIsReplayOfReturned(states, trace, n);
    }
  }

  /** After an interrupted rollback the guard refuses every later operation, for good. */
  lemma {:induction false} OnceDirtyAlwaysRefused(states: seq<Store>, trace: seq<Done>, n: nat, m: nat)
    requires Run(states, trace) && n <= m <= |trace| && states[n].db.connected && states[n].db.open
    ensures states[m] == states[n]
    ensures m < |trace| ==> trace[m].out == REFUSED
    decreases m
  {
    if n < m {
      OnceDirtyAlwaysRefused(states, trace, n, m - 1);
      var d := trace[m - 1];
      assert Step(states[m - 1], d.op, d.fault, d.out, states[m]);
    }
    if m < |trace| {
      assert Step(states[m], trace[m].op, trace[m].fault, trace[m].out, states[m + 1]);
    }
  }

  // ---- The job-key sweep ----

  /** `job_<digits>`, the only keys the sweep is documented to remove. */
  predicate IsJobNumber(key: string) {
    && IsJobKey(key) && |key| > 4
    && forall i | 4 <= i < |key| :: '0' <= key[i] <= '9'
  }

  /** A key survives the sweep, with its entry, exactly when it does not begin with
      the four characters `job_`; nothing else is touched, and the cache is swept of
      the same keys. */
  lemma SweepKeepsExactly(t: Tables, slot: Slot)
    ensures var swept := Effect(t, CollectJobKeys);
      && swept.meta == t.meta && swept.events == t.events && swept.mirror == t.mirror
      && (slot in swept.context <==> slot in t.context && !(|slot.1| >= 4 && slot.1[..4] == "job_"))
      && (slot in swept.context ==> swept.context[slot] == t.context[slot])
      && CacheEffect(CacheOf(t), CollectJobKeys).mem == swept.context
      && CacheEffect(CacheOf(t), CollectJobKeys).meta == CacheOf(t).meta
  {
    assert IsJobKey(slot.1) <==> |slot.1| >= 4 && slot.1[..4] == "job_";
  }

  /** The sweep is as safe as documented exactly when every stored key that
      starts with `job_` is a job number. */
  lemma SweepIsSafeExactly(t: Tables)
    ensures (forall s | s in t.context && s !in Effect(t, CollectJobKeys).context :: IsJobNumber(s.1))
       <==> (forall s | s in t.context && IsJobKey(s.1) :: IsJobNumber(s.1))
  {
    var u := Effect(t, CollectJobKeys).context;
    assert forall s | s in t.context :: s in u <==> !IsJobKey(s.1);
  }

  /** An agent's own note under `job_notes` does not survive a restart. */
  lemma SweepDeletesNotes(t: Tables, agent: string, entry: Entry)
    ensures (agent, "job_notes") in Effect(t, Write((agent, "job_notes"), entry)).context
    ensures (agent, "job_notes") !in Effect(Effect(t, Write((agent, "job_notes"), entry)), CollectJobKeys).context
    ensures !IsJobNumber("job_notes")
  {
    var key := "job_notes";
    assert key[..4] == "job_";
    assert key[4] == 'n';
  }
}
