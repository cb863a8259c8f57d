/** The audit mirror's writer: numbering within a correlation, and one row per tool
    call (`src/salient_core/bus/_context_store.py:1110-1175`, table and unique
    index at 150-170). */
module AuditMirror {
  import opened Sequences
  import opened Wrappers

  /** Denies, enforced or let through in shadow mode, and the floors that stop a
      tool without a deny. */
  datatype Op = ScopeDeny | ScopeDenyShadowed | SafeguardBlock | BudgetPark | AuthzLatch

  datatype Row = Row(seqNo: nat, op: Op, agent: string, correlation: Option<string>,
                     tool: Option<string>, toolUseId: Option<string>)

  /** `COALESCE(MAX(seq), 0)` over one correlation. */
  function MaxSeq(rows: seq<Row>, correlation: Option<string>): nat {
    if rows == [] then 0
    else
      var m := MaxSeq(Front(rows), correlation);
      if Last(rows).correlation == correlation && Last(rows).seqNo > m then Last(rows).seqNo else m
  }

  predicate Taken(rows: seq<Row>, toolUseId: Option<string>) {
    toolUseId.Some? && exists i :: 0 <= i < |rows| && rows[i].toolUseId == toolUseId
  }

  /** One `record_audit_mirror` whose transaction goes through; `row.seqNo` is ignored. */
  function Insert(rows: seq<Row>, row: Row): seq<Row> {
    if Taken(rows, row.toolUseId) then rows
    else rows + [row.(seqNo := MaxSeq(rows, row.correlation) + 1)]
  }

  function InsertAll(rows: seq<Row>, calls: seq<Row>): seq<Row> {
    if calls == [] then rows else Insert(InsertAll(rows, Front(calls)), Last(calls))
  }

  /** The rows of one correlation, in insertion order. */
  function Of(rows: seq<Row>, correlation: Option<string>): seq<Row> {
    if rows == [] then []
    else Of(Front(rows), correlation) + (if Last(rows).correlation == correlation then [Last(rows)] else [])
  }

  ghost predicate NumberedFromOne(rows: seq<Row>) {
    forall i | 0 <= i < |rows| :: rows[i].seqNo == i + 1
  }

  ghost predicate OneRowPerToolUse(rows: seq<Row>) {
    forall i, j | 0 <= i < j < |rows| && rows[i].toolUseId.Some? :: rows[i].toolUseId != rows[j].toolUseId
  }

  ghost predicate WellKept(rows: seq<Row>) {
    OneRowPerToolUse(rows) && forall c :: NumberedFromOne(Of(rows, c))
  }

  lemma OfAppend(rows: seq<Row>, row: Row, c: Option<string>)
    ensures Of(rows + [row], c) == Of(rows, c) + (if row.correlation == c then [row] else [])
  {
    assert Front(rows + [row]) == rows;
  }

  lemma {:induction false} MaxSeqIsCount(rows: seq<Row>, c: Option<string>)
    requires NumberedFromOne(Of(rows, c))
    ensures MaxSeq(rows, c) == |Of(rows, c)|
  {
    if rows != [] {
      var prior := Of(Front(rows), c);
      forall i | 0 <= i < |prior| ensures prior[i].seqNo == i + 1 {
        assert Of(rows, c)[i] == prior[i];
      }
      MaxSeqIsCount(Front(rows), c);
      if Last(rows).correlation == c {
        assert Of(rows, c)[|prior|] == Last(rows);
      }
    }
  }

  lemma InsertKeepsNumbers(rows: seq<Row>, added: Row, c: Option<string>)
    requires NumberedFromOne(Of(rows, c)) && NumberedFromOne(Of(rows, added.correlation))
    requires added.seqNo == MaxSeq(rows, added.correlation) + 1
    ensures NumberedFromOne(Of(rows + [added], c))
  {
    MaxSeqIsCount(rows, added.correlation);
    OfAppend(rows, added, c);
  }

  lemma InsertKeeps(rows: seq<Row>, row: Row)
    requires WellKept(rows)
    ensures WellKept(Insert(rows, row))
  {
    if !Taken(rows, row.toolUseId) {
      var added := row.(seqNo := MaxSeq(rows, row.correlation) + 1);
      forall c ensures NumberedFromOne(Of(rows + [added], c)) {
        InsertKeepsNumbers(rows, added, c);
      }
    }
  }

  /** However calls interleave, every correlation's rows are numbered 1..k in the
      order they were written, and no tool call has two rows. */
  lemma {:induction false} RunsKeepMirror(calls: seq<Row>)
    ensures WellKept(InsertAll([], calls))
  {
    if calls != [] {
      RunsKeepMirror(Front(calls));
      InsertKeeps(InsertAll([], Front(calls)), Last(calls));
    }
  }

  // ---- What the table holds ----

  ghost predicate Seen(calls: seq<Row>, toolUseId: Option<string>) {
    exists i :: 0 <= i < |calls| && calls[i].toolUseId == toolUseId
  }

  /** The calls without a tool-use id, and the first call with each. */
  ghost function FirstCalls(calls: seq<Row>): seq<Row> {
    if calls == [] then []
    else
      var call := Last(calls);
      FirstCalls(Front(calls)) +
      if call.toolUseId.Some? && Seen(Front(calls), call.toolUseId) then [] else [call]
  }

  ghost predicate UpToNumbers(rows: seq<Row>, calls: seq<Row>) {
    |rows| == |calls| && forall i | 0 <= i < |rows| :: rows[i] == calls[i].(seqNo := rows[i].seqNo)
  }

  lemma {:induction false} SeenIsTaken(calls: seq<Row>, id: Option<string>)
    requires id.Some?
    ensures Taken(InsertAll([], calls), id) <==> Seen(calls, id)
  {
    if calls != [] {
      var front, call := Front(calls), Last(calls);
      SeenIsTaken(front, id);
      SeenAppends(front, call, id);
      assert calls == front + [call];
      InsertTakes(InsertAll([], front), call, id);
    }
  }

  lemma InsertTakes(rows: seq<Row>, call: Row, id: Option<string>)
    requires id.Some?
    ensures Taken(Insert(rows, call), id) <==> Taken(rows, id) || call.toolUseId == id
  {
    SeenAppends(rows, call.(seqNo := MaxSeq(rows, call.correlation) + 1), id);
  }

  lemma OneMoreCall(rows: seq<Row>, first: seq<Row>, call: Row)
    requires UpToNumbers(rows, first)
    ensures UpToNumbers(Insert(rows, call), first + if Taken(rows, call.toolUseId) then [] else [call])
  {
  }

  /** After any run the table holds exactly those calls, in order, as they were made
      up to the number they got. */
  lemma {:induction false} TableIsFirstCalls(calls: seq<Row>)
    ensures UpToNumbers(InsertAll([], calls), FirstCalls(calls))
  {
    if calls != [] {
      var front, call := Front(calls), Last(calls);
      TableIsFirstCalls(front);
      OneMoreCall(InsertAll([], front), FirstCalls(front), call);
      if call.toolUseId.Some? {
        SeenIsTaken(front, call.toolUseId);
      }
    }
  }

  lemma SeenAppends(rows: seq<Row>, row: Row, id: Option<string>)
    ensures Seen(rows + [row], id) <==> Seen(rows, id) || row.toolUseId == id
  {
    assert (rows + [row])[|rows|] == row;
    if i :| 0 <= i < |rows| && rows[i].toolUseId == id {
      assert (rows + [row])[i].toolUseId == id;
    }
  }

  // ---- Reading back: ORDER BY seq, ts LIMIT n ----

  ghost predicate SortedBySeq(rows: seq<Row>) {
    forall i, j | 0 <= i < j < |rows| :: rows[i].seqNo <= rows[j].seqNo
  }

  lemma LastIsLargest(rows: seq<Row>, loaded: seq<Row>)
    requires NumberedFromOne(rows) && SortedBySeq(loaded) && rows != [] && loaded != []
    requires multiset(loaded) == multiset(rows)
    ensures Last(loaded) == Last(rows)
  {
    assert Last(rows) in multiset(loaded);
    var i :| 0 <= i < |loaded| && loaded[i] == Last(rows);
    assert Last(loaded) in multiset(rows);
    var j :| 0 <= j < |rows| && rows[j] == Last(loaded);
    assert loaded[i].seqNo <= loaded[|loaded| - 1].seqNo;
  }

  /** Insertion order is the one order of the rows that is sorted by `seq`. */
  lemma {:induction false} LoadOrderIsInsertionOrder(rows: seq<Row>, loaded: seq<Row>)
    requires NumberedFromOne(rows) && multiset(loaded) == multiset(rows)
    ensures SortedBySeq(loaded) <==> loaded == rows
    decreases |rows|
  {
    assert |loaded| == |multiset(loaded)| == |multiset(rows)| == |rows|;
    if rows != [] && SortedBySeq(loaded) {
      LastIsLargest(rows, loaded);
      FrontRemovesLast(loaded);
      FrontRemovesLast(rows);
      FrontsStaySorted(rows, loaded);
      LoadOrderIsInsertionOrder(Front(rows), Front(loaded));
    }
  }

  lemma FrontsStaySorted(rows: seq<Row>, loaded: seq<Row>)
    requires rows != [] && loaded != [] && NumberedFromOne(rows) && SortedBySeq(loaded)
    ensures NumberedFromOne(Front(rows)) && SortedBySeq(Front(loaded))
  {
    var a, b := Front(rows), Front(loaded);
    assert forall i | 0 <= i < |a| :: a[i] == rows[i];
    assert forall i | 0 <= i < |b| :: b[i] == loaded[i];
  }

  lemma FrontRemovesLast<T>(s: seq<T>)
    requires s != []
    ensures s == Front(s) + [Last(s)] && multiset(Front(s)) == multiset(s) - multiset{Last(s)}
  {
    assert s == Front(s) + [Last(s)];
    assert multiset(s) == multiset(Front(s)) + multiset{Last(s)};
  }

  // ---- What a successful call promises ----

  /** `held` is the row a call for `row` should leave, up to its number. */
  predicate Same(held: Row, row: Row) {
    held.toolUseId == row.toolUseId && held.correlation == row.correlation && held.op == row.op
  }

  /** The writer reports success, yet the table has a row for the call, in its
      correlation and with its operation, only if the tool-use id was not taken first
      by another correlation or for another operation. */
  lemma SuccessMeansPresentExactly(rows: seq<Row>, row: Row)
    requires OneRowPerToolUse(rows)
    ensures (exists i :: 0 <= i < |Insert(rows, row)| && Same(Insert(rows, row)[i], row))
       <==> !(row.toolUseId.Some? &&
              exists i :: 0 <= i < |rows| && rows[i].toolUseId == row.toolUseId && !Same(rows[i], row))
  {
    var after := Insert(rows, row);
    if Taken(rows, row.toolUseId) {
      var i :| 0 <= i < |rows| && rows[i].toolUseId == row.toolUseId;
      assert forall j | 0 <= j < |rows| && rows[j].toolUseId == row.toolUseId :: j == i;
    } else {
      assert Same(after[|rows|], row);
    }
  }

  /** Two correlations record the same tool call: the second write reports
      success and leaves nothing behind. */
  lemma SuccessCanLeaveNoRow(a: Row, b: Row)
    requires a.toolUseId == b.toolUseId == Some("use-1")
    requires a.correlation == Some("turn-1") && b.correlation == Some("turn-2")
    ensures InsertAll([], [a, b]) == [a.(seqNo := 1)]
    ensures Of(InsertAll([], [a, b]), Some("turn-2")) == []
  {
    assert Front([a, b]) == [a] && Front([a]) == [];
    var first := Insert([], a);
    assert first == [a.(seqNo := 1)] && first[0].toolUseId == b.toolUseId;
    assert InsertAll([], [a]) == first;
    assert InsertAll([], [a, b]) == first;
    assert Front(first) == [];
  }
}
