/** The key-value store with its database behind it: `ContextStore` in
    `src/salient_core/bus/_context_store.py:200-330, 496-678, 703-805, 1110-1175`. */
module ContextStore {
  import opened StoreCoherence
  import opened Transactions
  import EventRetention
  import AuditMirror

  /** Read the `context` table, row by row. */
  method ReadContext(table: map<Slot, Entry>) returns (mem: map<Slot, Entry>)
    ensures mem == table
  {
    mem := map[];
    var slots := table.Keys;
    while slots != {}
      invariant slots <= table.Keys && mem.Keys == table.Keys - slots
      invariant forall s | s in mem :: mem[s] == table[s]
      decreases |slots|
    {
      var s :| s in slots;
      mem := mem[s := table[s]];
      slots := slots - {s};
    }
  }

  /** Read the `meta` table, row by row, without the timestamps. */
  method ReadMeta(table: map<string, Entry>) returns (meta: map<string, string>)
    ensures meta == map name | name in table :: table[name].value
  {
    meta := map[];
    var names := table.Keys;
    while names != {}
      invariant names <= table.Keys && meta.Keys == table.Keys - names
      invariant forall name | name in meta :: meta[name] == table[name].value
      decreases |names|
    {
      var name :| name in names;
      meta := meta[name := table[name].value];
      names := names - {name};
    }
  }

  class Store {
    var disk: Tables
    var view: Tables         // what the connection sees: pending changes included
    var inTransaction: bool
    var connected: bool
    var mem: map<Slot, Entry>
    var meta: map<string, string>
    const cap: int
    const interval: nat
    var insertsSincePrune: nat
    var degraded: nat
    ghost var missedSweeps: nat  // see `EventRetention.Tracked`
    ghost var tornSweeps: nat
    ghost var slack: nat

    ghost function Db(): Database
      reads `disk, `view, `inTransaction, `connected
    {
      Database(disk, view, inTransaction, connected)
    }

    ghost function State(): StoreCoherence.Store
      reads `disk, `view, `inTransaction, `connected, `mem, `meta
    {
      StoreCoherence.Store(Db(), Cache(mem, meta))
    }

    /** Between operations nothing that was rejected can reach the tables any more. */
    ghost predicate Valid()
      reads `disk, `view, `inTransaction, `connected
    {
      Unbroken(Db())
    }

    constructor (disk: Tables, eventsCap: int, pruneInterval: int)
      ensures Valid() && connected && this.disk == disk && Agrees(State())
      ensures cap == eventsCap && interval == (if pruneInterval < 1 then 1 else pruneInterval)
      ensures Tracked() == EventRetention.Tracked(disk.events, 0, 0, 0, 0)
    {
      this.disk, view, inTransaction, connected := disk, disk, false, true;
      mem, meta := map[], map[];
      cap, interval := eventsCap, if pruneInterval < 1 then 1 else pruneInterval;
      insertsSincePrune, degraded := 0, 0;
      missedSweeps, tornSweeps, slack := 0, 0, 0;
      new;
      Hydrate();
    }

    method Hydrate()
      modifies `mem, `meta
      ensures Cache(mem, meta) == CacheOf(view)
    {
      mem := ReadContext(view.context);
      meta := ReadMeta(view.meta);
    }

    /** `_txn` around the statements of `op`. */
    method Txn(op: Op, fault: Fault) returns (end: Ending, ghost landed: bool)
      modifies `disk, `view, `inTransaction, `connected
      ensures (Db(), Outcome(end, landed)) == Transact(old(Db()), op, fault)
    {
      if !connected || inTransaction {
        return DatabaseError, false;
      }
      inTransaction := true;
      view := if fault.bodyFails then fault.left else Effect(view, op);
      landed := false;
      var ok := !fault.bodyFails;
      if ok {
        ok, landed := Commit(fault);
      }
      if ok {
        return Returned, landed;
      }
      if inTransaction {
        // what the failure leaves behind
        view, inTransaction := if fault.leftOpen then fault.left else disk, fault.leftOpen;
      }
      match fault.rollback {
        case RolledBack =>
          view := disk;
          inTransaction := false;
        case Refused =>
          connected := false;
        case Escaped =>
          return Interrupted, landed;
      }
      end := if fault.interrupt then Interrupted else DatabaseError;
    }

    /** `conn.commit()`. */
    method Commit(fault: Fault) returns (ok: bool, ghost landed: bool)
      requires inTransaction
      modifies `disk, `inTransaction
      ensures ok == !fault.commitFails && landed == (fault.commitFails ==> fault.tookEffect)
      ensures disk == (if landed then view else old(disk)) && inTransaction == !landed
    {
      ok := !fault.commitFails;
      landed := ok || fault.tookEffect;
      if ok || fault.tookEffect {
        disk := view;
        inTransaction := false;
      }
    }

    method Write(agent: string, key: string, value: string, ts: real, fault: Fault)
      returns (end: Ending, ghost landed: bool)
      requires Valid()
      modifies `disk, `view, `inTransaction, `connected, `mem
      ensures Valid()
      ensures Step(old(State()), StoreCoherence.Write((agent, key), Entry(value, ts)), fault, Outcome(end, landed),
                   State())
    {
      end, landed := Returned, false;
      if connected {
        TransactIsAtomic(Db(), StoreCoherence.Write((agent, key), Entry(value, ts)), fault);
        end, landed := Txn(StoreCoherence.Write((agent, key), Entry(value, ts)), fault);
      }
      if end == Returned {
        mem := mem[(agent, key) := Entry(value, ts)];
      }
    }

    method Delete(agent: string, key: string, fault: Fault) returns (end: Ending, existed: bool, ghost landed: bool)
      requires Valid()
      modifies `disk, `view, `inTransaction, `connected, `mem
      ensures Valid()
      ensures Step(old(State()), StoreCoherence.Delete((agent, key)), fault, Outcome(end, landed), State())
      ensures existed == ((agent, key) in old(mem))
    {
      existed := (agent, key) in mem;
      end, landed := Returned, false;
      if connected {
        TransactIsAtomic(Db(), StoreCoherence.Delete((agent, key)), fault);
        end, landed := Txn(StoreCoherence.Delete((agent, key)), fault);
      }
      if end == Returned {
        mem := mem - {(agent, key)};
      }
    }

    method MetaSet(name: string, value: string, ts: real, fault: Fault) returns (end: Ending, ghost landed: bool)
      requires Valid()
      modifies `disk, `view, `inTransaction, `connected, `meta
      ensures Valid()
      ensures Step(old(State()), StoreCoherence.MetaSet(name, Entry(value, ts)), fault, Outcome(end, landed), State())
    {
      end, landed := Returned, false;
      if connected {
        TransactIsAtomic(Db(), StoreCoherence.MetaSet(name, Entry(value, ts)), fault);
        end, landed := Txn(StoreCoherence.MetaSet(name, Entry(value, ts)), fault);
      }
      if end == Returned {
        meta := meta[name := value];
      }
    }

    method MetaDelete(name: string, fault: Fault) returns (end: Ending, existed: bool, ghost landed: bool)
      requires Valid()
      modifies `disk, `view, `inTransaction, `connected, `meta
      ensures Valid() && Step(old(State()), StoreCoherence.MetaDelete(name), fault, Outcome(end, landed), State())
      ensures existed == (name in old(meta))
    {
      existed := name in meta;
      end, landed := Returned, false;
      if connected {
        TransactIsAtomic(Db(), StoreCoherence.MetaDelete(name), fault);
        end, landed := Txn(StoreCoherence.MetaDelete(name), fault);
      }
      if end == Returned {
        meta := meta - {name};
      }
    }

    method GcStaleJobKeys(fault: Fault) returns (end: Ending, ghost landed: bool)
      requires Valid()
      modifies `disk, `view, `inTransaction, `connected, `mem
      ensures Valid() && Step(old(State()), CollectJobKeys, fault, Outcome(end, landed), State())
      ensures forall slot | slot in mem :: slot in old(mem) && mem[slot] == old(mem)[slot]
      ensures forall slot | slot in old(mem) ::
                slot !in mem <==> old(connected) && end == Returned && |slot.1| >= 4 && slot.1[..4] == "job_"
    {
      if !connected {
        return Returned, false;
      }
      TransactIsAtomic(Db(), CollectJobKeys, fault);
      end, landed := Txn(CollectJobKeys, fault);
      if end == Returned {
        mem := map slot | slot in mem && !IsJobKey(slot.1) :: mem[slot];
      }
    }

    method Close()
      requires Valid()
      modifies `connected
      ensures Valid() && !connected
    {
      connected := false;
    }

    // ---- The tables that are not cached ----

    ghost function Tracked(): EventRetention.Tracked
      reads `disk, `insertsSincePrune, `missedSweeps, `tornSweeps, `slack
    {
      EventRetention.Tracked(disk.events, insertsSincePrune, missedSweeps, tornSweeps, slack)
    }

    /** One statement on an uncached table, on a live connection. A database error is
        counted; anything else is raised on. */
    method Record(op: Op, fault: Fault) returns (end: Ending, ghost landed: bool)
      requires Valid() && connected && (op.InsertEvent? || op.DropEvents? || op.InsertMirror?)
      modifies `disk, `view, `inTransaction, `connected, `degraded
      ensures Valid() && Step(old(State()), op, fault, Outcome(end, landed), State())
      ensures Outcome(end, landed) == if old(inTransaction) then REFUSED else fault.Ends()
      ensures disk == (if landed then Effect(old(disk), op) else old(disk))
      ensures degraded == old(degraded) + (if end == DatabaseError then 1 else 0)
      ensures end == Returned ==> connected && !inTransaction
    {
      TransactIsAtomic(Db(), op, fault);
      end, landed := Txn(op, fault);
      if end == DatabaseError {
        degraded := degraded + 1;
      }
    }

    /** Insert one event and, every `interval` inserts, sweep. Database errors are noted
        and swallowed; nothing but the events table changes. */
    method RecordEvent(event: EventRetention.Event, row: nat, insertFault: Fault, sweepFault: Fault)
      returns (end: Ending, ghost inserted: Outcome)
      requires Valid() && row !in disk.events
      modifies this
      ensures Valid() && mem == old(mem) && meta == old(meta)
      ensures disk == old(disk).(events := disk.events)
      ensures inserted == if old(Usable(Db())) then insertFault.Ends() else REFUSED
      ensures if old(connected) then OneOrTwoSteps(old(State()), insertFault, sweepFault, State())
              else State() == old(State())
      ensures EventRetention.Recorded(cap, interval, old(Tracked()),
                                      EventRetention.Call(event, inserted, sweepFault.Ends()), Tracked())
      ensures end == if inserted.ending.Returned? then SweepEnds(cap, interval, old(insertsSincePrune), sweepFault)
                     else if inserted.ending.Interrupted? then Interrupted
                     else Returned
    {
      inserted := REFUSED;
      if !connected {
        return Returned, inserted;
      }
      ghost var landed;
      end, landed := Record(InsertEvent(row, event), insertFault);
      inserted := Outcome(end, landed);
      assert landed ==> EventRetention.Appended(old(disk).events, disk.events, event);
      ghost var s := State();
      assert Step(old(State()), InsertEvent(row, event), insertFault, inserted, s);
      if end != Returned {
        slack := slack + if landed then 1 else 0;
        return if end == DatabaseError then Returned else end, inserted;
      }
      end := CountInsert(sweepFault);
    }

    /** The tail of `record_event`: count the insert, and sweep when it is time. */
    method CountInsert(sweepFault: Fault) returns (end: Ending)
      requires Valid() && connected && !inTransaction
      modifies `disk, `view, `inTransaction, `connected, `degraded
      modifies `insertsSincePrune, `missedSweeps, `tornSweeps, `slack
      ensures Valid() && disk == old(disk).(events := disk.events)
      ensures State() == old(State()) || SweepStep(old(State()), sweepFault, State())
      ensures EventRetention.Counted(cap, interval, old(Tracked()), old(disk).events, sweepFault.Ends(), Tracked())
      ensures end == SweepEnds(cap, interval, old(insertsSincePrune), sweepFault)
    {
      ghost var mid := disk.events;
      insertsSincePrune := insertsSincePrune + 1;
      end := Returned;
      if insertsSincePrune >= interval {
        ghost var counted := Tracked();
        end := PruneEvents(sweepFault);
        ghost var swept := Tracked();
        if end == Returned {
          insertsSincePrune := 0;
          tornSweeps := 0;
        }
        EventRetention.SweptIsCounted(cap, interval, old(Tracked()), mid, counted, sweepFault.Ends(), end, swept,
                                      Tracked());
      }
    }

    /** Trim every agent to the cap, all of them or none. The rows to drop are read
        and dropped in the same transaction. */
    method PruneEvents(fault: Fault) returns (end: Ending)
      requires Valid()
      modifies `disk, `view, `inTransaction, `connected, `degraded, `missedSweeps, `tornSweeps, `slack
      ensures Valid() && disk == old(disk).(events := disk.events) && end != DatabaseError
      ensures cap <= 0 || !old(connected) ==> end == Returned && State() == old(State()) && Tracked() == old(Tracked())
      ensures cap > 0 && old(connected) ==> SweepStep(old(State()), fault, State())
      ensures cap > 0 && old(Usable(Db())) ==>
                EventRetention.Swept(cap, old(Tracked()), fault.Ends(), end, Tracked())
    {
      if cap <= 0 || !connected {
        return Returned;
      }
      ghost var s := State();
      var rows := EventRetention.Trim(cap, view.events);
      var dropped := view.events.Keys - rows.Keys;
      assert view.events - dropped == rows;
      ghost var landed;
      end, landed := Record(DropEvents(dropped), fault);
      assert Step(s, DropEvents(dropped), fault, Outcome(end, landed), State());
      missedSweeps := if landed then 0 else if end == DatabaseError then missedSweeps + 1 else missedSweeps;
      slack := if landed then 0 else if end == DatabaseError then slack + tornSweeps else slack;
      tornSweeps := if end == Interrupted then tornSweeps + 1 else tornSweeps;
      end := if end == DatabaseError then Returned else end;
    }

    /** Best effort: `DatabaseError` stands for the answer false, given only when a
        database is there and the write failed. */
    method RecordAuditMirror(row: AuditMirror.Row, fault: Fault) returns (end: Ending, ghost landed: bool)
      requires Valid()
      modifies `disk, `view, `inTransaction, `connected, `degraded
      ensures Valid() && Step(old(State()), InsertMirror(row), fault, Outcome(end, landed), State())
      ensures Outcome(end, landed) == if !old(connected) then Outcome(Returned, false)
                                      else if old(inTransaction) then REFUSED
                                      else fault.Ends()
      ensures disk == if landed then old(disk).(mirror := AuditMirror.Insert(old(disk).mirror, row)) else old(disk)
      ensures degraded == old(degraded) + (if end == DatabaseError then 1 else 0)
    {
      if !connected {
        return Returned, false;
      }
      end, landed := Record(InsertMirror(row), fault);
    }
  }

  /** Only an interrupted sweep raises. */
  function SweepEnds(cap: int, interval: nat, sincePrune: nat, fault: Fault): Ending {
    if sincePrune + 1 >= interval && cap > 0 && fault.Ends().ending.Interrupted? then Interrupted else Returned
  }

  ghost predicate SweepStep(s: StoreCoherence.Store, fault: Fault, t: StoreCoherence.Store) {
    exists rows, out :: Step(s, DropEvents(rows), fault, out, t)
  }

  /** An insert, perhaps followed by a sweep. */
  ghost predicate OneOrTwoSteps(s: StoreCoherence.Store, insertFault: Fault, sweepFault: Fault,
                                t: StoreCoherence.Store)
  {
    exists row, event, out, mid ::
      Step(s, InsertEvent(row, event), insertFault, out, mid) && (t == mid || SweepStep(mid, sweepFault, t))
  }
}
