/** Token spend and the verdict on it: `BudgetLedger` and `evaluate_budget` in
    `src/salient_core/daemon/_budget.py:74-195`. */
module BudgetLedger {
  import opened Sequences
  import opened Wrappers

  datatype Turn = Turn(agent: string, epoch: int, seqNo: int)

  type Entries = map<Turn, nat>

  datatype Charge = Charge(turn: Turn, tokens: int)

  function AtLeastZero(n: int): (r: nat)
    ensures n <= r && (r == n || r == 0)
  {
    if n < 0 then 0 else n
  }

  // ---- Sums over entries ----

  ghost function Total(m: Entries): nat
    decreases |m|
  {
    if m == map[] then 0
    else
      var k :| k in m;
      m[k] + Total(m - {k})
  }

  lemma {:induction false} TotalSplits(m: Entries, k: Turn)
    requires k in m
    ensures Total(m) == m[k] + Total(m - {k})
    decreases |m|
  {
    var j :| j in m && Total(m) == m[j] + Total(m - {j});
    if j != k {
      TotalSplits(m - {j}, k);
      TotalSplits(m - {k}, j);
      assert (m - {j}) - {k} == (m - {k}) - {j};
    }
  }

  function Mine(m: Entries, names: set<string>): Entries {
    map k | k in m && k.agent in names :: m[k]
  }

  /** What the named agents have spent. */
  ghost function Spent(m: Entries, names: set<string>): nat {
    Total(Mine(m, names))
  }

  lemma SpentWithNew(m: Entries, k: Turn, n: nat, names: set<string>)
    requires k !in m
    ensures Spent(m[k := n], names) == Spent(m, names) + (if k.agent in names then n else 0)
  {
    var more := Mine(m[k := n], names);
    if k.agent in names {
      TotalSplits(more, k);
      assert more - {k} == Mine(m, names);
    } else {
      assert more == Mine(m, names);
    }
  }

  lemma NothingSpent(names: set<string>)
    ensures Spent(map[], names) == 0
  {
    assert Mine(map[], names) == map[];
  }

  // ---- Runs of charges ----

  function ChargeOnce(m: Entries, c: Charge): Entries {
    if c.turn in m then m else m[c.turn := AtLeastZero(c.tokens)]
  }

  function ChargeAll(m: Entries, charges: seq<Charge>): Entries {
    if charges == [] then m else ChargeOnce(ChargeAll(m, Front(charges)), Last(charges))
  }

  /** The first charge of a turn, if it was charged at all. */
  function FirstCharge(charges: seq<Charge>, turn: Turn): Option<int> {
    if charges == [] then None
    else if charges[0].turn == turn then Some(charges[0].tokens)
    else FirstCharge(charges[1..], turn)
  }

  lemma {:induction false} FirstOfFront(charges: seq<Charge>, turn: Turn)
    requires charges != []
    ensures FirstCharge(charges, turn) ==
            if FirstCharge(Front(charges), turn).Some? then FirstCharge(Front(charges), turn)
            else if Last(charges).turn == turn then Some(Last(charges).tokens) else None
  {
    if |charges| > 1 && charges[0].turn != turn {
      assert Front(charges)[1..] == Front(charges[1..]);
      FirstOfFront(charges[1..], turn);
    }
  }

  /** The ledger holds exactly the first charge of every turn, whatever is replayed. */
  lemma {:induction false} LedgerIsFirstCharges(charges: seq<Charge>, turn: Turn)
    ensures var m := ChargeAll(map[], charges);
      match FirstCharge(charges, turn)
      case Some(tokens) => turn in m && m[turn] == AtLeastZero(tokens)
      case None => turn !in m
  {
    if charges != [] {
      LedgerIsFirstCharges(Front(charges), turn);
      FirstOfFront(charges, turn);
    }
  }

  /** So neither the order of different turns nor any replay matters. */
  lemma OrderDoesNotMatter(a: seq<Charge>, b: seq<Charge>)
    requires forall turn :: FirstCharge(a, turn) == FirstCharge(b, turn)
    ensures ChargeAll(map[], a) == ChargeAll(map[], b)
  {
    var m, n := ChargeAll(map[], a), ChargeAll(map[], b);
    forall turn ensures turn in m <==> turn in n {
      LedgerIsFirstCharges(a, turn);
      LedgerIsFirstCharges(b, turn);
    }
    forall turn | turn in m && turn in n ensures m[turn] == n[turn] {
      LedgerIsFirstCharges(a, turn);
      LedgerIsFirstCharges(b, turn);
    }
  }

  /** Spend never goes down. */
  lemma {:induction false} SpendNeverFalls(m: Entries, charges: seq<Charge>, names: set<string>)
    ensures Spent(ChargeAll(m, charges), names) >= Spent(m, names)
  {
    if charges != [] {
      SpendNeverFalls(m, Front(charges), names);
      var before, c := ChargeAll(m, Front(charges)), Last(charges);
      if c.turn !in before {
        SpentWithNew(before, c.turn, AtLeastZero(c.tokens), names);
      }
    }
  }

  // ---- Persistence ----

  /** A persisted row, or one that cannot be read as one. */
  datatype Row = Row(turn: Turn, tokens: int) | Malformed

  function Restore(rows: seq<Row>): Entries {
    if rows == [] then map[]
    else
      var m := Restore(Front(rows));
      match Last(rows)
      case Row(turn, tokens) => m[turn := AtLeastZero(tokens)]
      case Malformed => m
  }

  /** `rows` list the entries, each once; the order does not matter here. */
  ghost predicate Lists(m: Entries, rows: seq<Row>) {
    && (forall i | 0 <= i < |rows| :: rows[i].Row? && rows[i].turn in m && rows[i].tokens == m[rows[i].turn])
    && (forall i, j | 0 <= i < j < |rows| :: rows[i] != rows[j])
    && (forall turn | turn in m :: exists i :: 0 <= i < |rows| && rows[i] == Row(turn, m[turn]))
  }

  lemma {:induction false} RestoreAgrees(m: Entries, rows: seq<Row>)
    requires forall i | 0 <= i < |rows| :: rows[i].Row? && rows[i].turn in m && rows[i].tokens == m[rows[i].turn]
    ensures forall turn :: turn in Restore(rows) <==> exists i :: 0 <= i < |rows| && rows[i].Row? && rows[i].turn == turn
    ensures forall turn | turn in Restore(rows) :: turn in m && Restore(rows)[turn] == m[turn]
  {
    if rows != [] {
      var prior := Front(rows);
      RestoreAgrees(m, prior);
      forall turn
        ensures turn in Restore(rows) <==> exists i :: 0 <= i < |rows| && rows[i].Row? && rows[i].turn == turn
      {
        if i :| 0 <= i < |prior| && prior[i].Row? && prior[i].turn == turn {
          assert rows[i] == prior[i];
        }
        assert rows[|rows| - 1] == Last(rows);
      }
    }
  }

  lemma OneRowLess(m: Entries, rows: seq<Row>)
    requires Lists(m, rows) && rows != []
    ensures Last(rows).turn in m && Lists(m - {Last(rows).turn}, Front(rows))
  {
    var k, front := Last(rows).turn, Front(rows);
    var fewer := m - {k};
    forall turn | turn in fewer ensures exists i :: 0 <= i < |front| && front[i] == Row(turn, fewer[turn]) {
      var i :| 0 <= i < |rows| && rows[i] == Row(turn, m[turn]);
      assert front[i] == rows[i];
    }
    forall i | 0 <= i < |front| ensures front[i].turn in fewer {
      assert rows[i] != rows[|front|];
    }
  }

  /** A listing has exactly one row for every entry. */
  lemma {:induction false} OneRowPerEntry(m: Entries, rows: seq<Row>)
    requires Lists(m, rows)
    ensures |rows| == |m|
    decreases |rows|
  {
    if rows == [] {
      assert m == map[];
    } else {
      var k := Last(rows).turn;
      OneRowLess(m, rows);
      OneRowPerEntry(m - {k}, Front(rows));
      assert m.Keys == (m - {k}).Keys + {k};
    }
  }

  /** A restart does not launder spend: what was listed is restored exactly. */
  lemma RestoreUndoesSnapshot(m: Entries, rows: seq<Row>)
    requires Lists(m, rows)
    ensures Restore(rows) == m
  {
    RestoreAgrees(m, rows);
  }

  function WellFormed(rows: seq<Row>): seq<Row> {
    if rows == [] then []
    else WellFormed(Front(rows)) + (if Last(rows).Row? then [Last(rows)] else [])
  }

  /** Bad rows only drop themselves. */
  lemma {:induction false} BadRowsOnlyDropThemselves(rows: seq<Row>)
    ensures Restore(rows) == Restore(WellFormed(rows))
  {
    if rows != [] {
      BadRowsOnlyDropThemselves(Front(rows));
      if Last(rows).Row? {
        var kept := WellFormed(rows);
        assert Front(kept) == WellFormed(Front(rows)) && Last(kept) == Last(rows);
      } else {
        assert WellFormed(rows) == WellFormed(Front(rows));
      }
    }
  }

  // ---- The verdict ----

  datatype Action = OK | WARN | OVER

  function Rank(a: Action): nat {
    match a
    case OK => 0
    case WARN => 1
    case OVER => 2
  }

  function Evaluate(spent: int, ceiling: Option<int>, warnFrac: real): Action {
    if ceiling.None? || ceiling.value <= 0 then OK
    else if spent >= ceiling.value then OVER
    else
      var frac := if 0.0 < warnFrac <= 1.0 then warnFrac else 0.8;
      if spent as real >= ceiling.value as real * frac then WARN else OK
  }

  /** Without a positive ceiling there is no verdict; with one, OVER begins at the
      ceiling, and WARN below it at the given part of it, or at four fifths if the
      part given is not above 0 and at most 1. */
  lemma VerdictExactly(spent: int, ceiling: Option<int>, warnFrac: real)
    ensures ceiling.None? ==> Evaluate(spent, ceiling, warnFrac) == OK
    ensures ceiling.Some? ==>
      var c, v := ceiling.value, Evaluate(spent, ceiling, warnFrac);
      && (v == OVER <==> 0 < c <= spent)
      && (v == WARN <==> 0 < c && spent < c &&
                         if warnFrac <= 0.0 || warnFrac > 1.0 then 4 * c <= 5 * spent
                         else c as real * warnFrac <= spent as real)
  {
  }

  /** More spend never gets a milder verdict. */
  lemma VerdictIsMonotone(spent: int, more: int, ceiling: Option<int>, warnFrac: real)
    requires spent <= more
    ensures Rank(Evaluate(spent, ceiling, warnFrac)) <= Rank(Evaluate(more, ceiling, warnFrac))
  {
  }

  /** Once over a fixed ceiling, an agent stays over it through any further charges,
      replays, resets to a new epoch, and a restart from a snapshot in between. */
  lemma OverIsForGood(m: Entries, rows: seq<Row>, charges: seq<Charge>, names: set<string>,
                      ceiling: Option<int>, warnFrac: real)
    requires Lists(m, rows) && Evaluate(Spent(m, names), ceiling, warnFrac) == OVER
    ensures Evaluate(Spent(ChargeAll(Restore(rows), charges), names), ceiling, warnFrac) == OVER
  {
    RestoreUndoesSnapshot(m, rows);
    SpendNeverFalls(m, charges, names);
    VerdictIsMonotone(Spent(m, names), Spent(ChargeAll(m, charges), names), ceiling, warnFrac);
  }

  // ---- The ledger ----

  class Ledger {
    var entries: Entries

    constructor ()
      ensures entries == map[] && forall names :: Spent(entries, names) == 0
    {
      entries := map[];
      new;
      forall names {
        NothingSpent(names);
      }
    }

    /** `from_snapshot`. */
    constructor FromSnapshot(rows: seq<Row>)
      ensures entries == Restore(rows)
    {
      entries := map[];
      new;
      var i := 0;
      while i < |rows|
        invariant 0 <= i <= |rows| && entries == Restore(rows[..i])
        modifies this
      {
        assert Front(rows[..i + 1]) == rows[..i];
        match rows[i] {
          case Row(turn, tokens) => entries := entries[turn := AtLeastZero(tokens)];
          case Malformed =>
        }
        i := i + 1;
      }
      assert rows[..i] == rows;
    }

    /** True when the turn is charged for the first time. */
    method ChargeTurn(c: Charge) returns (recorded: bool)
      modifies this
      ensures entries == ChargeOnce(old(entries), c)
      ensures recorded <==> c.turn !in old(entries)
      ensures forall names :: Spent(entries, names) ==
                Spent(old(entries), names) + (if recorded && c.turn.agent in names then AtLeastZero(c.tokens) else 0)
    {
      if c.turn in entries {
        return false;
      }
      forall names {
        SpentWithNew(entries, c.turn, AtLeastZero(c.tokens), names);
      }
      entries := entries[c.turn := AtLeastZero(c.tokens)];
      return true;
    }

    /** The sum over the entries, one by one. */
    method SpentForAgents(names: set<string>) returns (sum: nat)
      ensures sum == Spent(entries, names)
    {
      sum := 0;
      var rest := Mine(entries, names);
      while rest != map[]
        invariant sum + Total(rest) == Spent(entries, names)
        decreases |rest|
      {
        var k :| k in rest;
        TotalSplits(rest, k);
        sum := sum + rest[k];
        rest := rest - {k};
      }
    }

    /** A list of rows for every entry, once each. */
    method Snapshot() returns (rows: seq<Row>)
      ensures Lists(entries, rows)
    {
      rows := [];
      var rest := entries;
      while rest != map[]
        invariant forall k | k in rest :: k in entries && rest[k] == entries[k]
        invariant Lists(entries - rest.Keys, rows)
        decreases |rest|
      {
        var k :| k in rest;
        OneMoreListed(entries - rest.Keys, rows, k, entries[k]);
        assert entries - (rest - {k}).Keys == (entries - rest.Keys)[k := entries[k]];
        rows := rows + [Row(k, entries[k])];
        rest := rest - {k};
      }
      assert entries - rest.Keys == entries;
    }
  }

  lemma OneMoreListed(m: Entries, rows: seq<Row>, k: Turn, n: nat)
    requires Lists(m, rows) && k !in m
    ensures Lists(m[k := n], rows + [Row(k, n)])
  {
    var grown, more := m[k := n], rows + [Row(k, n)];
    forall turn | turn in grown ensures exists i :: 0 <= i < |more| && more[i] == Row(turn, grown[turn]) {
      if turn == k {
        assert more[|rows|] == Row(k, n);
      } else {
        var i :| 0 <= i < |rows| && rows[i] == Row(turn, m[turn]);
        assert more[i] == rows[i];
      }
    }
  }
}
