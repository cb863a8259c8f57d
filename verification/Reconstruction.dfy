/** The cross-check between the authoritative denies and their best-effort mirror:
    `build_reconstruction` in `src/salient_core/coord/reconstruct.py:62-220`. */
module Reconstruction {
  import opened Sequences
  import opened Wrappers
  import opened AuditMirror

  /** A row of `scope_decisions` with verdict `deny`. */
  datatype Deny = Deny(agent: string, tool: Option<string>, decisionId: Option<string>)

  datatype Key = ById(id: Option<string>) | ByCall(agent: string, tool: Option<string>)

  const LOAD_LIMIT := 500

  predicate Truthy(id: Option<string>) {
    id.Some? && id.value != ""
  }

  predicate IsDeny(row: Row) {
    row.op.ScopeDeny? || row.op.ScopeDenyShadowed?
  }

  function Denies(audit: seq<Row>): seq<Row> {
    if audit == [] then []
    else Denies(Front(audit)) + (if IsDeny(Last(audit)) then [Last(audit)] else [])
  }

  /** The row-for-row check is used when every authoritative row has an id. */
  predicate Strong(authoritative: seq<Deny>) {
    authoritative != [] && forall i | 0 <= i < |authoritative| :: Truthy(authoritative[i].decisionId)
  }

  function DenyKey(strong: bool, row: Deny): Key {
    if strong then ById(row.decisionId) else ByCall(row.agent, row.tool)
  }

  function MirrorKey(strong: bool, row: Row): Key {
    if strong then ById(row.toolUseId) else ByCall(row.agent, row.tool)
  }

  function DenyKeys(strong: bool, rows: seq<Deny>): (keys: seq<Key>)
    ensures |keys| == |rows| && forall i | 0 <= i < |rows| :: keys[i] == DenyKey(strong, rows[i])
  {
    seq(|rows|, i requires 0 <= i < |rows| => DenyKey(strong, rows[i]))
  }

  function MirrorKeys(strong: bool, rows: seq<Row>): (keys: seq<Key>)
    ensures |keys| == |rows| && forall i | 0 <= i < |rows| :: keys[i] == MirrorKey(strong, rows[i])
  {
    seq(|rows|, i requires 0 <= i < |rows| => MirrorKey(strong, rows[i]))
  }

  function Missing(strong: bool, authoritative: seq<Deny>, audit: seq<Row>): multiset<Key> {
    multiset(DenyKeys(strong, authoritative)) - multiset(MirrorKeys(strong, Denies(audit)))
  }

  function Orphaned(strong: bool, authoritative: seq<Deny>, audit: seq<Row>): multiset<Key> {
    multiset(MirrorKeys(strong, Denies(audit))) - multiset(DenyKeys(strong, authoritative))
  }

  /** `missing == 0 and orphan == 0`. */
  predicate Clean(strong: bool, authoritative: seq<Deny>, audit: seq<Row>) {
    |Missing(strong, authoritative, audit)| == 0 && |Orphaned(strong, authoritative, audit)| == 0
  }

  // ---- Legacy correlation ids ----

  /** `s.split(":")`. */
  function Parts(s: string): (parts: seq<string>)
    ensures |parts| >= 1
  {
    if s == [] then [""]
    else
      var rest := Parts(s[1..]);
      if s[0] == ':' then [""] + rest else [[s[0]] + rest[0]] + rest[1..]
  }

  predicate IsDigits(s: string) {
    s != "" && forall i | 0 <= i < |s| :: '0' <= s[i] <= '9'
  }

  predicate IsLegacyCorrelationId(id: string) {
    |Parts(id)| == 3 && IsDigits(Parts(id)[1])
  }

  lemma {:induction false} PartsOfJoined(s: string, t: string)
    requires ':' !in s
    ensures Parts(s + ":" + t) == [s] + Parts(t)
  {
    var whole := s + ":" + t;
    if s == [] {
      assert whole[1..] == t;
    } else {
      assert whole[1..] == s[1..] + ":" + t;
      PartsOfJoined(s[1..], t);
      assert [s[0]] + s[1..] == s;
    }
  }

  lemma {:induction false} PartsOfPlain(s: string)
    requires ':' !in s
    ensures Parts(s) == [s]
  {
    if s != [] {
      PartsOfPlain(s[1..]);
      assert [s[0]] + s[1..] == s;
    }
  }

  function Joined(parts: seq<string>): string
    requires parts != []
  {
    if |parts| == 1 then parts[0] else parts[0] + ":" + Joined(parts[1..])
  }

  lemma {:induction false} PartsJoin(s: string)
    ensures Joined(Parts(s)) == s
    ensures forall i | 0 <= i < |Parts(s)| :: ':' !in Parts(s)[i]
  {
    if s != [] {
      var rest, parts := Parts(s[1..]), Parts(s);
      PartsJoin(s[1..]);
      assert s == [s[0]] + s[1..];
      if s[0] == ':' {
        assert parts[1..] == rest;
      } else {
        assert parts[1..] == rest[1..];
      }
    }
  }

  lemma JoinedThree(a: string, b: string, c: string)
    ensures Joined([a, b, c]) == a + ":" + (b + ":" + c)
  {
    assert [a, b, c][1..] == [b, c] && [b, c][1..] == [c];
    assert Joined([b, c]) == b + ":" + c;
  }

  lemma ThreeParts(a: string, b: string, c: string)
    requires ':' !in a && ':' !in b && ':' !in c
    ensures Parts(a + ":" + (b + ":" + c)) == [a, b, c]
  {
    PartsOfPlain(c);
    PartsOfJoined(b, c);
    PartsOfJoined(a, b + ":" + c);
  }

  /** Two colons cut `id` into `a`, `b` and `c`. */
  ghost predicate CutIntoThree(id: string, a: string, b: string, c: string) {
    id == a + ":" + (b + ":" + c) && ':' !in a && ':' !in b && ':' !in c
  }

  /** An id is taken for a legacy one exactly when two colons cut it into three parts
      of which the middle one is a number. */
  lemma LegacyExactly(id: string)
    ensures IsLegacyCorrelationId(id) <==>
            exists a, b, c :: CutIntoThree(id, a, b, c) && b != "" && forall i | 0 <= i < |b| :: '0' <= b[i] <= '9'
  {
    var parts := Parts(id);
    if |parts| == 3 {
      PartsJoin(id);
      JoinedThree(parts[0], parts[1], parts[2]);
      assert parts == [parts[0], parts[1], parts[2]];
      assert CutIntoThree(id, parts[0], parts[1], parts[2]);
    }
    forall a, b, c | CutIntoThree(id, a, b, c) ensures parts == [a, b, c] {
      ThreeParts(a, b, c);
    }
  }

  /** An id minted in the current form is never taken for a legacy one, and one in
      the old form always is. */
  lemma OldFormExactly(engagement: string, agent: string, epoch: string, seqNo: string)
    requires ':' !in engagement && ':' !in agent && ':' !in epoch && ':' !in seqNo && IsDigits(epoch)
    ensures !IsLegacyCorrelationId(engagement + ":" + (agent + ":" + (epoch + ":" + seqNo)))
    ensures IsLegacyCorrelationId(engagement + ":" + (epoch + ":" + seqNo))
  {
    PartsOfPlain(seqNo);
    PartsOfJoined(epoch, seqNo);
    PartsOfJoined(agent, epoch + ":" + seqNo);
    PartsOfJoined(engagement, agent + ":" + (epoch + ":" + seqNo));
    PartsOfJoined(engagement, epoch + ":" + seqNo);
  }

  // ---- The verdict and the gaps ----

  /** Walk the rows in order and take as many of each key as it is `short` of. */
  function Gaps(strong: bool, rows: seq<Deny>, short: multiset<Key>): seq<Deny> {
    if rows == [] then []
    else
      var key := DenyKey(strong, rows[0]);
      if short[key] > 0 then [rows[0]] + Gaps(strong, rows[1..], short[key := short[key] - 1])
      else Gaps(strong, rows[1..], short)
  }

  /** `gaps` are rows taken, in order, at `picks`. */
  ghost predicate PickedFrom(rows: seq<Deny>, picks: seq<nat>, gaps: seq<Deny>) {
    && |picks| == |gaps|
    && (forall i | 0 <= i < |picks| :: picks[i] < |rows| && rows[picks[i]] == gaps[i])
    && (forall i, j | 0 <= i < j < |picks| :: picks[i] < picks[j])
  }

  lemma KeysOfFirst(strong: bool, rows: seq<Deny>)
    requires rows != []
    ensures multiset(DenyKeys(strong, rows)) == multiset{DenyKey(strong, rows[0])} + multiset(DenyKeys(strong, rows[1..]))
  {
    assert DenyKeys(strong, rows) == [DenyKey(strong, rows[0])] + DenyKeys(strong, rows[1..]);
  }

  lemma OneLess(short: multiset<Key>, rest: multiset<Key>, key: Key)
    requires short <= multiset{key} + rest
    ensures if short[key] > 0
            then var less := short[key := short[key] - 1]; less <= rest && multiset{key} + less == short
            else short <= rest
  {
  }

  /** If the rows can supply what is short, the gaps cover it key by key, exactly. */
  lemma {:induction false} GapsCoverShortfall(strong: bool, rows: seq<Deny>, short: multiset<Key>)
    requires short <= multiset(DenyKeys(strong, rows))
    ensures multiset(DenyKeys(strong, Gaps(strong, rows, short))) == short
    ensures |Gaps(strong, rows, short)| == |short|
  {
    var gaps := Gaps(strong, rows, short);
    if rows == [] {
      assert DenyKeys(strong, rows) == [] && short == multiset{};
    } else {
      var key := DenyKey(strong, rows[0]);
      KeysOfFirst(strong, rows);
      OneLess(short, multiset(DenyKeys(strong, rows[1..])), key);
      if short[key] > 0 {
        GapsCoverShortfall(strong, rows[1..], short[key := short[key] - 1]);
        KeysOfFirst(strong, gaps);
        assert gaps[1..] == Gaps(strong, rows[1..], short[key := short[key] - 1]);
      } else {
        GapsCoverShortfall(strong, rows[1..], short);
      }
    }
    assert |multiset(DenyKeys(strong, gaps))| == |gaps|;
  }

  /** The gaps are authoritative rows, in their order, none taken twice. */
  lemma {:induction false} GapsArePicked(strong: bool, rows: seq<Deny>, short: multiset<Key>) returns (picks: seq<nat>)
    ensures PickedFrom(rows, picks, Gaps(strong, rows, short))
  {
    picks := [];
    if rows != [] {
      var key := DenyKey(strong, rows[0]);
      var rest := if short[key] > 0 then short[key := short[key] - 1] else short;
      var later := GapsArePicked(strong, rows[1..], rest);
      var gaps := Gaps(strong, rows[1..], rest);
      picks := PickedLater(rows, later, gaps);
      if short[key] > 0 {
        PickedFirst(rows, picks, gaps);
        picks := [0] + picks;
      }
    }
  }

  lemma PickedLater(rows: seq<Deny>, later: seq<nat>, gaps: seq<Deny>) returns (picks: seq<nat>)
    requires rows != [] && PickedFrom(rows[1..], later, gaps)
    ensures PickedFrom(rows, picks, gaps) && 0 !in picks
  {
    picks := seq(|later|, i requires 0 <= i < |later| => later[i] + 1);
    forall i | 0 <= i < |picks| ensures picks[i] < |rows| && rows[picks[i]] == gaps[i] {
      assert rows[1..][later[i]] == gaps[i];
    }
  }

  lemma PickedFirst(rows: seq<Deny>, picks: seq<nat>, gaps: seq<Deny>)
    requires rows != [] && PickedFrom(rows, picks, gaps) && 0 !in picks
    ensures PickedFrom(rows, [0] + picks, [rows[0]] + gaps)
  {
    forall i | 0 <= i < |picks| ensures picks[i] > 0 {
      assert picks[i] in picks;
    }
  }

  datatype Report = Report(strong: bool, missing: nat, orphan: nat, gaps: seq<Deny>, complete: bool)

  /** There is one gap for every missing deny, and the gaps carry exactly the keys
      that the mirror is short of. */
  method BuildReconstruction(id: string, found: bool, authoritative: seq<Deny>, audit: seq<Row>) returns (r: Report)
    ensures r.strong <==>
            authoritative != [] && forall i | 0 <= i < |authoritative| :: authoritative[i].decisionId !in {None, Some("")}
    ensures r.missing == |Missing(r.strong, authoritative, audit)| == |r.gaps|
    ensures r.orphan == |Orphaned(r.strong, authoritative, audit)|
    ensures r.complete <==> found && !IsLegacyCorrelationId(id) && Clean(r.strong, authoritative, audit)
    ensures r.gaps == Gaps(r.strong, authoritative, Missing(r.strong, authoritative, audit))
    ensures multiset(DenyKeys(r.strong, r.gaps)) == Missing(r.strong, authoritative, audit)
  {
    var strong := Strong(authoritative);
    var missing := Missing(strong, authoritative, audit);
    var orphaned := Orphaned(strong, authoritative, audit);
    var gaps := PickGaps(strong, authoritative, missing);
    GapsCoverShortfall(strong, authoritative, missing);
    r := Report(strong, |missing|, |orphaned|, gaps,
                found && |missing| == 0 && |orphaned| == 0 && !IsLegacyCorrelationId(id));
  }

  /** The loop over the authoritative rows. */
  method PickGaps(strong: bool, authoritative: seq<Deny>, missing: multiset<Key>) returns (gaps: seq<Deny>)
    ensures gaps == Gaps(strong, authoritative, missing)
  {
    var remaining := missing;
    gaps := [];
    var i := 0;
    while i < |authoritative|
      invariant 0 <= i <= |authoritative|
      invariant gaps + Gaps(strong, authoritative[i..], remaining) == Gaps(strong, authoritative, missing)
    {
      assert authoritative[i..][1..] == authoritative[i + 1..];
      var key := DenyKey(strong, authoritative[i]);
      if remaining[key] > 0 {
        remaining := remaining[key := remaining[key] - 1];
        ghost var rest := Gaps(strong, authoritative[i + 1..], remaining);
        assert gaps + ([authoritative[i]] + rest) == (gaps + [authoritative[i]]) + rest;
        gaps := gaps + [authoritative[i]];
      }
      i := i + 1;
    }
  }

  // ---- What a clean verdict means ----

  lemma CleanIsEqual(strong: bool, authoritative: seq<Deny>, audit: seq<Row>)
    ensures Clean(strong, authoritative, audit) <==>
            multiset(DenyKeys(strong, authoritative)) == multiset(MirrorKeys(strong, Denies(audit)))
  {
    NoDifferenceIsEqual(multiset(DenyKeys(strong, authoritative)), multiset(MirrorKeys(strong, Denies(audit))));
  }

  lemma NoDifferenceIsEqual(a: multiset<Key>, m: multiset<Key>)
    ensures |a - m| == 0 && |m - a| == 0 <==> a == m
  {
    if |a - m| == 0 && |m - a| == 0 {
      assert a - m == multiset{} && m - a == multiset{};
      forall k ensures a[k] == m[k] {
        assert (a - m)[k] == 0 && (m - a)[k] == 0;
      }
    }
  }

  lemma {:induction false} DistinctOnce<T(!new)>(s: seq<T>)
    requires Distinct(s)
    ensures forall x :: multiset(s)[x] == if x in s then 1 else 0
  {
    if s != [] {
      var rest := Front(s);
      DistinctOnce(rest);
      assert s == rest + [Last(s)];
      assert Last(s) !in rest;
      assert multiset(s) == multiset(rest) + multiset{Last(s)};
    }
  }

  lemma DistinctSeqsAgreeExactly(a: seq<Key>, m: seq<Key>)
    requires Distinct(a) && Distinct(m)
    ensures multiset(a) == multiset(m) <==> Elements(a) == Elements(m)
  {
    DistinctOnce(a);
    DistinctOnce(m);
    if Elements(a) == Elements(m) {
      forall k ensures multiset(a)[k] == multiset(m)[k] {
        assert k in a <==> k in Elements(a);
        assert k in m <==> k in Elements(m);
      }
    }
    if multiset(a) == multiset(m) {
      SameMembers(a, m);
    }
  }

  lemma SameMembers(a: seq<Key>, m: seq<Key>)
    requires multiset(a) == multiset(m)
    ensures Elements(a) == Elements(m)
  {
    forall k ensures k in Elements(a) <==> k in Elements(m) {
      assert k in multiset(a) <==> k in multiset(m);
    }
  }

  /** Under the strong check, with unique ids on both sides, a clean verdict means
      exactly that the mirror's denies carry the authoritative ids, no fewer and no more. */
  lemma StrongIsExact(authoritative: seq<Deny>, audit: seq<Row>)
    requires Distinct(DenyKeys(true, authoritative)) && Distinct(MirrorKeys(true, Denies(audit)))
    ensures Clean(true, authoritative, audit) <==>
            Elements(DenyKeys(true, authoritative)) == Elements(MirrorKeys(true, Denies(audit)))
  {
    CleanIsEqual(true, authoritative, audit);
    DistinctSeqsAgreeExactly(DenyKeys(true, authoritative), MirrorKeys(true, Denies(audit)));
  }

  // ---- Strong against weak ----

  /** The hook writes both sides of one deny from the same invocation. */
  ghost predicate TwinsAgree(authoritative: seq<Deny>, denies: seq<Row>) {
    forall i, j | 0 <= i < |authoritative| && 0 <= j < |denies| && denies[j].toolUseId == authoritative[i].decisionId ::
      denies[j].agent == authoritative[i].agent && denies[j].tool == authoritative[i].tool
  }

  /** Equal ids in the same multiset give equal (agent, tool) pairs. */
  lemma {:induction false} MatchedRowsMatchKeys(authoritative: seq<Deny>, denies: seq<Row>)
    requires TwinsAgree(authoritative, denies)
    requires multiset(DenyKeys(true, authoritative)) == multiset(MirrorKeys(true, denies))
    ensures multiset(DenyKeys(false, authoritative)) == multiset(MirrorKeys(false, denies))
    decreases |authoritative|
  {
    assert |multiset(DenyKeys(true, authoritative))| == |authoritative|;
    assert |multiset(MirrorKeys(true, denies))| == |denies|;
    if authoritative != [] {
      var j := TwinOfFirst(authoritative, denies);
      WithoutOne(true, denies, j);
      WithoutOne(false, denies, j);
      KeysOfFirst(true, authoritative);
      KeysOfFirst(false, authoritative);
      var rest := denies[..j] + denies[j + 1..];
      OneGone(multiset(DenyKeys(true, authoritative[1..])), multiset(MirrorKeys(true, rest)), MirrorKey(true, denies[j]));
      MatchedRowsMatchKeys(authoritative[1..], rest);
    }
  }

  lemma TwinOfFirst(authoritative: seq<Deny>, denies: seq<Row>) returns (j: nat)
    requires authoritative != [] && TwinsAgree(authoritative, denies)
    requires multiset(DenyKeys(true, authoritative)) == multiset(MirrorKeys(true, denies))
    ensures j < |denies| && MirrorKey(true, denies[j]) == DenyKey(true, authoritative[0])
    ensures MirrorKey(false, denies[j]) == DenyKey(false, authoritative[0])
  {
    var a, m := DenyKeys(true, authoritative), MirrorKeys(true, denies);
    assert a[0] in multiset(a);
    assert a[0] in multiset(m);
    j :| 0 <= j < |m| && m[j] == a[0];
  }

  lemma OneGone(a: multiset<Key>, m: multiset<Key>, key: Key)
    requires multiset{key} + a == multiset{key} + m
    ensures a == m
  {
    forall k ensures a[k] == m[k] {
      assert (multiset{key} + a)[k] == (multiset{key} + m)[k];
    }
  }

  lemma WithoutOne(strong: bool, rows: seq<Row>, j: nat)
    requires j < |rows|
    ensures multiset(MirrorKeys(strong, rows)) ==
            multiset{MirrorKey(strong, rows[j])} + multiset(MirrorKeys(strong, rows[..j] + rows[j + 1..]))
  {
    KeysWithoutOne(MirrorKeys(strong, rows), j);
    assert MirrorKeys(strong, rows[..j] + rows[j + 1..])
        == MirrorKeys(strong, rows)[..j] + MirrorKeys(strong, rows)[j + 1..];
  }

  lemma KeysWithoutOne(keys: seq<Key>, j: nat)
    requires j < |keys|
    ensures multiset(keys) == multiset{keys[j]} + multiset(keys[..j] + keys[j + 1..])
  {
    assert keys == keys[..j] + [keys[j]] + keys[j + 1..];
  }

  /** The row-for-row check is at least as strict as the multiset check. */
  lemma StrongImpliesWeak(authoritative: seq<Deny>, audit: seq<Row>)
    requires TwinsAgree(authoritative, Denies(audit)) && Clean(true, authoritative, audit)
    ensures Clean(false, authoritative, audit)
  {
    CleanIsEqual(true, authoritative, audit);
    MatchedRowsMatchKeys(authoritative, Denies(audit));
    CleanIsEqual(false, authoritative, audit);
  }

  /** And stricter: a dropped deny and a spurious one of the same agent and tool
      cancel under the multiset check, and only there. */
  lemma WeakMissesASwap(agent: string, tool: Option<string>, dropped: Option<string>, spurious: Option<string>, row: Row)
    requires IsDeny(row) && row.agent == agent && row.tool == tool && row.toolUseId == spurious && spurious != dropped
    ensures var authoritative := [Deny(agent, tool, dropped)];
      Clean(false, authoritative, [row]) && !Clean(true, authoritative, [row])
  {
    OneRowEach(false, Deny(agent, tool, dropped), row);
    OneRowEach(true, Deny(agent, tool, dropped), row);
  }

  lemma OneRowEach(strong: bool, deny: Deny, row: Row)
    requires IsDeny(row)
    ensures Clean(strong, [deny], [row]) <==> DenyKey(strong, deny) == MirrorKey(strong, row)
  {
    assert Denies([row]) == [row] by { assert Front([row]) == []; }
    assert DenyKeys(strong, [deny]) == [DenyKey(strong, deny)];
    assert MirrorKeys(strong, [row]) == [MirrorKey(strong, row)];
    CleanIsEqual(strong, [deny], [row]);
    SingletonsEqual(DenyKey(strong, deny), MirrorKey(strong, row));
  }

  lemma SingletonsEqual(a: Key, b: Key)
    ensures multiset([a]) == multiset([b]) <==> a == b
  {
    assert multiset([a])[a] == 1;
    assert a != b ==> multiset([b])[a] == 0;
  }

  // ---- What each operation counts for ----

  /** Under the weak check a mirror row answers a deny exactly if agent and tool are
      the same, under the strong check exactly if the ids are. */
  lemma OneDenyOneRow(strong: bool, deny: Deny, row: Row)
    requires row.op == ScopeDeny || row.op == ScopeDenyShadowed
    ensures Clean(strong, [deny], [row]) <==>
            if strong then deny.decisionId == row.toolUseId else deny.agent == row.agent && deny.tool == row.tool
  {
    CleanIsEqual(strong, [deny], [row]);
    OneRowEach(strong, deny, row);
  }

  /** Enforced and shadowed denies both count: mirrored one for one by either, in any
      mix, the authoritative rows are clean under both checks. */
  lemma ShadowedDeniesCount(strong: bool, authoritative: seq<Deny>, audit: seq<Row>)
    requires |audit| == |authoritative|
    requires forall i | 0 <= i < |audit| ::
               && (audit[i].op == ScopeDeny || audit[i].op == ScopeDenyShadowed)
               && audit[i].toolUseId == authoritative[i].decisionId
               && audit[i].agent == authoritative[i].agent && audit[i].tool == authoritative[i].tool
    ensures Clean(strong, authoritative, audit)
    ensures Missing(strong, authoritative, audit) == Orphaned(strong, authoritative, audit) == multiset{}
  {
    AllDenies(audit);
    assert DenyKeys(strong, authoritative) == MirrorKeys(strong, audit);
    CleanIsEqual(strong, authoritative, audit);
  }

  lemma BlockIsNoDeny(before: seq<Row>, block: Row, after: seq<Row>)
    requires block.op == SafeguardBlock || block.op == BudgetPark || block.op == AuthzLatch
    ensures Denies(before + [block] + after) == Denies(before + after)
  {
    DeniesAppend(before + [block], after);
    DeniesAppend(before, [block]);
    DeniesAppend(before, after);
    assert Denies([block]) == [] by { assert Front([block]) == []; }
  }

  /** The floors that stop a tool without a deny count for nothing, wherever they stand. */
  lemma BlocksCountForNothing(strong: bool, authoritative: seq<Deny>, before: seq<Row>, block: Row, after: seq<Row>)
    requires block.op == SafeguardBlock || block.op == BudgetPark || block.op == AuthzLatch
    ensures Missing(strong, authoritative, before + [block] + after) == Missing(strong, authoritative, before + after)
    ensures Orphaned(strong, authoritative, before + [block] + after) == Orphaned(strong, authoritative, before + after)
  {
    BlockIsNoDeny(before, block, after);
  }

  // ---- The load limit ----

  /** Both sides are read up to the limit, each in its own order: the denies by time,
      the mirror by number. */
  function Loaded<T>(rows: seq<T>): seq<T> {
    if |rows| <= LOAD_LIMIT then rows else rows[..LOAD_LIMIT]
  }

  function CutOff<T>(rows: seq<T>): seq<T> {
    if |rows| <= LOAD_LIMIT then [] else rows[LOAD_LIMIT..]
  }

  /** The check that `build_reconstruction` chooses for these rows is clean. */
  predicate Verdict(authoritative: seq<Deny>, audit: seq<Row>) {
    Clean(Strong(authoritative), authoritative, audit)
  }

  /** What lies past the limit has the same keys on both sides. */
  predicate CutOffsAgree(strong: bool, authoritative: seq<Deny>, audit: seq<Row>) {
    multiset(DenyKeys(strong, CutOff(authoritative))) == multiset(MirrorKeys(strong, Denies(CutOff(audit))))
  }

  lemma {:induction false} DeniesAppend(a: seq<Row>, b: seq<Row>)
    ensures Denies(a + b) == Denies(a) + Denies(b)
  {
    if b == [] {
      assert a + b == a;
    } else {
      assert Front(a + b) == a + Front(b) && Last(a + b) == Last(b);
      DeniesAppend(a, Front(b));
    }
  }

  lemma {:induction false} AllDenies(rows: seq<Row>)
    requires forall row | row in rows :: IsDeny(row)
    ensures Denies(rows) == rows
  {
    if rows != [] {
      var prior, last := Front(rows), Last(rows);
      AllDenies(prior);
      assert last in rows;
      assert Denies(rows) == prior + [last];
    }
  }

  lemma DenyKeysSplit(strong: bool, rows: seq<Deny>)
    ensures multiset(DenyKeys(strong, rows)) ==
            multiset(DenyKeys(strong, Loaded(rows))) + multiset(DenyKeys(strong, CutOff(rows)))
  {
    assert rows == Loaded(rows) + CutOff(rows);
    assert DenyKeys(strong, rows) == DenyKeys(strong, Loaded(rows)) + DenyKeys(strong, CutOff(rows));
  }

  lemma MirrorKeysSplit(strong: bool, audit: seq<Row>)
    ensures multiset(MirrorKeys(strong, Denies(audit))) ==
            multiset(MirrorKeys(strong, Denies(Loaded(audit)))) + multiset(MirrorKeys(strong, Denies(CutOff(audit))))
  {
    assert audit == Loaded(audit) + CutOff(audit);
    DeniesAppend(Loaded(audit), CutOff(audit));
    MirrorKeysAppend(strong, Denies(Loaded(audit)), Denies(CutOff(audit)));
  }

  lemma MirrorKeysAppend(strong: bool, a: seq<Row>, b: seq<Row>)
    ensures MirrorKeys(strong, a + b) == MirrorKeys(strong, a) + MirrorKeys(strong, b)
  {
  }

  lemma SumsCancel(a: multiset<Key>, b: multiset<Key>, c: multiset<Key>, d: multiset<Key>)
    ensures a == c ==> (a + b == c + d <==> b == d)
    ensures a + b == c + d ==> (a == c <==> b == d)
  {
    if a == c && a + b == c + d {
      forall k ensures b[k] == d[k] {
        assert (a + b)[k] == (c + d)[k];
      }
    }
    if b == d && a + b == c + d {
      forall k ensures a[k] == c[k] {
        assert (a + b)[k] == (c + d)[k];
      }
    }
  }

  /** Under one and the same check, the rows past the limit decide: a clean loaded
      verdict is right exactly when they agree, a clean full verdict is reached
      exactly when they agree, and so the two verdicts are the same exactly when they
      agree or neither is clean. */
  lemma LimitExactly(strong: bool, authoritative: seq<Deny>, audit: seq<Row>)
    ensures var loaded, full := Clean(strong, Loaded(authoritative), Loaded(audit)), Clean(strong, authoritative, audit);
      && (loaded ==> (full <==> CutOffsAgree(strong, authoritative, audit)))
      && (full ==> (loaded <==> CutOffsAgree(strong, authoritative, audit)))
      && ((loaded <==> full) <==> CutOffsAgree(strong, authoritative, audit) || (!loaded && !full))
  {
    CleanIsEqual(strong, Loaded(authoritative), Loaded(audit));
    CleanIsEqual(strong, authoritative, audit);
    DenyKeysSplit(strong, authoritative);
    MirrorKeysSplit(strong, audit);
    SumsCancel(multiset(DenyKeys(strong, Loaded(authoritative))), multiset(DenyKeys(strong, CutOff(authoritative))),
               multiset(MirrorKeys(strong, Denies(Loaded(audit)))), multiset(MirrorKeys(strong, Denies(CutOff(audit)))));
  }

  /** The limit can also change which check is used, from the weak one to the strong
      one, when only rows past it lack an id. Whichever is used on either side, the
      verdicts are the same exactly when the loaded one is clean and what lies past
      the limit agrees, or neither is clean. */
  lemma VerdictUnderLimitExactly(authoritative: seq<Deny>, audit: seq<Row>)
    requires TwinsAgree(Loaded(authoritative), Denies(Loaded(audit)))
    ensures var loaded, full := Verdict(Loaded(authoritative), Loaded(audit)), Verdict(authoritative, audit);
      (loaded <==> full) <==>
        (loaded && CutOffsAgree(Strong(authoritative), authoritative, audit)) || (!loaded && !full)
  {
    var strong := Strong(authoritative);
    LimitExactly(strong, authoritative, audit);
    StrongStaysStrong(authoritative);
    if Strong(Loaded(authoritative)) && !strong && Verdict(Loaded(authoritative), Loaded(audit)) {
      StrongImpliesWeak(Loaded(authoritative), Loaded(audit));
    }
  }

  lemma StrongStaysStrong(authoritative: seq<Deny>)
    ensures Strong(authoritative) ==> Strong(Loaded(authoritative))
  {
    var loaded := Loaded(authoritative);
    assert forall i | 0 <= i < |loaded| :: loaded[i] == authoritative[i];
  }

  /** With at most 500 denies the verdict is right exactly when the mirror has no deny
      past its first 500 rows, or it is not clean anyway: always, when the mirror is
      within the limit too. */
  lemma FewDeniesExactly(authoritative: seq<Deny>, audit: seq<Row>)
    requires |authoritative| <= LOAD_LIMIT
    ensures var loaded, full := Verdict(authoritative, Loaded(audit)), Verdict(authoritative, audit);
      && ((loaded <==> full) <==> Denies(CutOff(audit)) == [] || (!loaded && !full))
      && (|audit| <= LOAD_LIMIT ==> (loaded <==> full))
  {
    var strong := Strong(authoritative);
    LimitExactly(strong, authoritative, audit);
    assert DenyKeys(strong, CutOff(authoritative)) == [];
    assert |multiset(MirrorKeys(strong, Denies(CutOff(audit))))| == |Denies(CutOff(audit))|;
  }

  ghost predicate Mirrors(authoritative: seq<Deny>, denies: seq<Row>) {
    && |denies| == |authoritative|
    && forall i | 0 <= i < |denies| ::
         IsDeny(denies[i]) && denies[i].toolUseId == authoritative[i].decisionId
         && denies[i].agent == authoritative[i].agent && denies[i].tool == authoritative[i].tool
  }

  lemma MirroredIsClean(authoritative: seq<Deny>, denies: seq<Row>)
    requires Mirrors(authoritative, denies)
    ensures Denies(denies) == denies && forall strong :: Clean(strong, authoritative, denies)
  {
    AllDenies(denies);
    forall strong ensures Clean(strong, authoritative, denies) {
      CleanIsEqual(strong, authoritative, denies);
      assert DenyKeys(strong, authoritative) == MirrorKeys(strong, denies);
    }
  }

  /** The verdict can hide a loss: with more denies than are loaded, a mirror that kept
      only the first of them looks whole. */
  lemma LimitHidesLostDenies(authoritative: seq<Deny>, audit: seq<Row>)
    requires |authoritative| > LOAD_LIMIT && Mirrors(authoritative[..LOAD_LIMIT], audit)
    ensures Clean(true, Loaded(authoritative), Loaded(audit))
    ensures !Clean(true, authoritative, audit)
  {
    MirroredIsClean(Loaded(authoritative), audit);
    SizesDiffer(authoritative, audit);
  }

  /** It can raise a false alarm: the mirror's limit counts its other rows too, so one
      block recorded before that many perfectly mirrored denies is reported as a lost
      deny. */
  lemma LimitRaisesFalseAlarms(authoritative: seq<Deny>, block: Row, denies: seq<Row>)
    requires |authoritative| == LOAD_LIMIT && Mirrors(authoritative, denies) && !IsDeny(block)
    ensures Clean(true, authoritative, [block] + denies)
    ensures !Clean(true, Loaded(authoritative), Loaded([block] + denies))
  {
    MirroredIsClean(authoritative, denies);
    BlockThenDenies(block, denies);
    CleanIsEqual(true, authoritative, [block] + denies);
    CleanIsEqual(true, authoritative, denies);
    var kept := denies[..LOAD_LIMIT - 1];
    assert Loaded([block] + denies) == [block] + kept;
    BlockThenDenies(block, kept);
    SizesDiffer(authoritative, [block] + kept);
  }

  /** And a perfect mirror of one deny more than the limit is enough for one, if the
      two sides put the last two denies in different orders. */
  lemma OrderAtTheLimitRaisesFalseAlarms(authoritative: seq<Deny>, audit: seq<Row>)
    requires |authoritative| == LOAD_LIMIT + 1
    requires authoritative[LOAD_LIMIT - 1].decisionId != authoritative[LOAD_LIMIT].decisionId
    requires Mirrors(Swapped(authoritative), audit)
    ensures Clean(true, authoritative, audit)
    ensures !Clean(true, Loaded(authoritative), Loaded(audit))
  {
    var swapped := Swapped(authoritative);
    MirroredIsClean(swapped, audit);
    SwapKeepsKeys(authoritative);
    CleanIsEqual(true, swapped, audit);
    CleanIsEqual(true, authoritative, audit);
    LimitExactly(true, authoritative, audit);
    assert CutOff(audit) == [audit[LOAD_LIMIT]] && CutOff(authoritative) == [authoritative[LOAD_LIMIT]];
    assert audit[LOAD_LIMIT].toolUseId == swapped[LOAD_LIMIT].decisionId == authoritative[LOAD_LIMIT - 1].decisionId;
    OneCutOff(authoritative, audit);
  }

  lemma OneCutOff(authoritative: seq<Deny>, audit: seq<Row>)
    requires |CutOff(authoritative)| == |CutOff(audit)| == 1 && IsDeny(CutOff(audit)[0])
    ensures CutOffsAgree(true, authoritative, audit) <==>
            CutOff(authoritative)[0].decisionId == CutOff(audit)[0].toolUseId
  {
    var deny, row := CutOff(authoritative)[0], CutOff(audit)[0];
    assert CutOff(authoritative) == [deny] && CutOff(audit) == [row];
    CleanIsEqual(true, [deny], [row]);
    OneRowEach(true, deny, row);
  }

  function Swapped(rows: seq<Deny>): seq<Deny>
    requires |rows| == LOAD_LIMIT + 1
  {
    rows[..LOAD_LIMIT - 1] + [rows[LOAD_LIMIT], rows[LOAD_LIMIT - 1]]
  }

  lemma SwapKeepsKeys(rows: seq<Deny>)
    requires |rows| == LOAD_LIMIT + 1
    ensures multiset(DenyKeys(true, Swapped(rows))) == multiset(DenyKeys(true, rows))
  {
    var a, b := DenyKey(true, rows[LOAD_LIMIT - 1]), DenyKey(true, rows[LOAD_LIMIT]);
    var first := DenyKeys(true, rows[..LOAD_LIMIT - 1]);
    assert DenyKeys(true, rows) == first + [a, b];
    assert DenyKeys(true, Swapped(rows)) == first + [b, a];
    assert multiset([a, b]) == multiset([b, a]);
    assert multiset(first + [a, b]) == multiset(first) + multiset([a, b]);
    assert multiset(first + [b, a]) == multiset(first) + multiset([b, a]);
  }

  lemma BlockThenDenies(block: Row, denies: seq<Row>)
    requires !IsDeny(block) && forall i | 0 <= i < |denies| :: IsDeny(denies[i])
    ensures Denies([block] + denies) == denies
  {
    AllDenies(denies);
    DeniesAppend([block], denies);
    assert Denies([block]) == [] by { assert Front([block]) == []; }
  }

  lemma SizesDiffer(authoritative: seq<Deny>, audit: seq<Row>)
    requires |authoritative| != |Denies(audit)|
    ensures !Clean(true, authoritative, audit)
  {
    CleanIsEqual(true, authoritative, audit);
    assert |multiset(DenyKeys(true, authoritative))| == |DenyKeys(true, authoritative)|;
    assert |multiset(MirrorKeys(true, Denies(audit)))| == |MirrorKeys(true, Denies(audit))|;
  }

  // ---- Joined with the writer ----

  /** The calls recorded under `c` as denies are those with an authoritative id.
      Other calls may come without any id. */
  ghost predicate CallsMatch(authoritative: seq<Deny>, c: Option<string>, rows: seq<Row>) {
    && (forall i | 0 <= i < |authoritative| :: authoritative[i].decisionId.Some?)
    && (forall i | 0 <= i < |rows| ::
          DeniedUnder(c, rows[i]) <==> ById(rows[i].toolUseId) in DenyKeys(true, authoritative))
  }

  function Ids(rows: seq<Row>): set<Option<string>> {
    set i | 0 <= i < |rows| :: rows[i].toolUseId
  }

  /** The writer keeps every id it is called with, and no row it was not called for. */
  lemma {:induction false} WriterKeepsIds(authoritative: seq<Deny>, c: Option<string>, calls: seq<Row>)
    requires CallsMatch(authoritative, c, calls)
    ensures CallsMatch(authoritative, c, InsertAll([], calls)) && Ids(InsertAll([], calls)) == Ids(calls)
  {
    if calls != [] {
      WriterKeepsIds(authoritative, c, Front(calls));
      IdsAppend(Front(calls), Last(calls));
      assert Front(calls) + [Last(calls)] == calls;
      var rows := InsertAll([], Front(calls));
      if Taken(rows, Last(calls).toolUseId) {
        assert Last(calls).toolUseId in Ids(rows);
      } else {
        var added := Last(calls).(seqNo := MaxSeq(rows, Last(calls).correlation) + 1);
        IdsAppend(rows, added);
      }
    }
  }

  lemma IdsAppend(rows: seq<Row>, row: Row)
    ensures Ids(rows + [row]) == Ids(rows) + {row.toolUseId}
  {
    var all := rows + [row];
    forall i | 0 <= i < |rows| ensures rows[i].toolUseId in Ids(all) {
      assert all[i] == rows[i];
    }
    assert all[|rows|] == row;
  }

  predicate DeniedUnder(c: Option<string>, row: Row) {
    row.correlation == c && IsDeny(row)
  }

  lemma DeniesOfLast(c: Option<string>, rows: seq<Row>)
    requires rows != []
    ensures MirrorKeys(true, Denies(Of(rows, c))) ==
            MirrorKeys(true, Denies(Of(Front(rows), c)))
            + (if DeniedUnder(c, Last(rows)) then [ById(Last(rows).toolUseId)] else [])
  {
    var row := Last(rows);
    var prior, mine := Of(Front(rows), c), if row.correlation == c then [row] else [];
    DeniesAppend(prior, mine);
    assert Denies(mine) == (if DeniedUnder(c, row) then [row] else []) by { assert Front([row]) == []; }
    assert Of(rows, c) == prior + mine;
    MirrorKeysAppend(true, Denies(prior), Denies(mine));
    assert MirrorKeys(true, Denies(mine)) == (if DeniedUnder(c, row) then [ById(row.toolUseId)] else []);
  }

  /** `keys` are, once each, the ids of the rows with an authoritative id. */
  ghost predicate KeysOf(authoritative: seq<Deny>, rows: seq<Row>, keys: seq<Key>) {
    && Distinct(keys)
    && forall id :: ById(id) in keys <==> id in Ids(rows) && ById(id) in DenyKeys(true, authoritative)
  }

  lemma KeysOfMore(authoritative: seq<Deny>, rows: seq<Row>, keys: seq<Key>, row: Row)
    requires KeysOf(authoritative, rows, keys) && (row.toolUseId.Some? ==> row.toolUseId !in Ids(rows))
    requires forall i | 0 <= i < |authoritative| :: authoritative[i].decisionId.Some?
    ensures KeysOf(authoritative, rows + [row],
                   keys + (if ById(row.toolUseId) in DenyKeys(true, authoritative) then [ById(row.toolUseId)] else []))
  {
    IdsAppend(rows, row);
  }

  lemma OneMoreDeny(authoritative: seq<Deny>, c: Option<string>, rows: seq<Row>, row: Row, keys: seq<Key>)
    requires OneRowPerToolUse(rows + [row]) && CallsMatch(authoritative, c, rows + [row])
    requires KeysOf(authoritative, rows, keys)
    ensures KeysOf(authoritative, rows + [row], keys + (if DeniedUnder(c, row) then [ById(row.toolUseId)] else []))
  {
    assert (rows + [row])[|rows|] == row;
    forall i | 0 <= i < |rows| ensures row.toolUseId.Some? ==> rows[i].toolUseId != row.toolUseId {
      assert (rows + [row])[i] == rows[i];
    }
    KeysOfMore(authoritative, rows, keys, row);
  }

  lemma FrontMatches(authoritative: seq<Deny>, c: Option<string>, rows: seq<Row>)
    requires rows != [] && OneRowPerToolUse(rows) && CallsMatch(authoritative, c, rows)
    ensures OneRowPerToolUse(Front(rows)) && CallsMatch(authoritative, c, Front(rows))
  {
  }

  lemma {:induction false} DeniesOfOne(authoritative: seq<Deny>, c: Option<string>, rows: seq<Row>)
    requires OneRowPerToolUse(rows) && CallsMatch(authoritative, c, rows)
    ensures KeysOf(authoritative, rows, MirrorKeys(true, Denies(Of(rows, c))))
  {
    if rows != [] {
      var front, row := Front(rows), Last(rows);
      FrontMatches(authoritative, c, rows);
      DeniesOfOne(authoritative, c, front);
      DeniesOfLast(c, rows);
      assert rows == front + [row];
      OneMoreDeny(authoritative, c, front, row, MirrorKeys(true, Denies(Of(front, c))));
    }
  }

  /** If the hook records every authoritative deny, however often it replays a call
      and whatever else is recorded in between, the strong verdict is clean. */
  lemma RecordedDeniesAreClean(authoritative: seq<Deny>, c: Option<string>, calls: seq<Row>)
    requires Distinct(DenyKeys(true, authoritative)) && CallsMatch(authoritative, c, calls)
    requires forall i | 0 <= i < |authoritative| :: authoritative[i].decisionId in Ids(calls)
    ensures Clean(true, authoritative, Of(InsertAll([], calls), c))
  {
    var rows := InsertAll([], calls);
    RunsKeepMirror(calls);
    WriterKeepsIds(authoritative, c, calls);
    DeniesOfOne(authoritative, c, rows);
    var a, m := DenyKeys(true, authoritative), MirrorKeys(true, Denies(Of(rows, c)));
    forall k ensures k in Elements(a) <==> k in Elements(m) {
      assert k in Elements(a) ==> k.ById?;
      assert k in Elements(m) ==> k.ById?;
    }
    assert Elements(a) == Elements(m);
    StrongIsExact(authoritative, Of(rows, c));
  }

  /** Some call recorded a deny under `c` with this id. */
  ghost predicate RecordedAs(calls: seq<Row>, c: Option<string>, id: Option<string>) {
    exists i :: 0 <= i < |calls| && DeniedUnder(c, calls[i]) && calls[i].toolUseId == id
  }

  /** Every row of the table comes from a call. */
  lemma {:induction false} RowsComeFromCalls(calls: seq<Row>, row: Row)
    requires row in InsertAll([], calls)
    ensures exists i :: 0 <= i < |calls| && Same(calls[i], row)
  {
    if calls != [] {
      if row in InsertAll([], Front(calls)) {
        RowsComeFromCalls(Front(calls), row);
        var i :| 0 <= i < |Front(calls)| && Same(Front(calls)[i], row);
        assert Same(calls[i], row);
      } else {
        assert Same(calls[|calls| - 1], row);
      }
    }
  }

  lemma {:induction false} MembersOf(rows: seq<Row>, c: Option<string>, row: Row)
    requires row in Of(rows, c)
    ensures row in rows && row.correlation == c
  {
    if rows != [] && row in Of(Front(rows), c) {
      MembersOf(Front(rows), c, row);
    }
  }

  lemma {:induction false} MembersOfDenies(audit: seq<Row>, row: Row)
    requires row in Denies(audit)
    ensures row in audit && IsDeny(row)
  {
    if audit != [] && row in Denies(Front(audit)) {
      MembersOfDenies(Front(audit), row);
    }
  }

  /** Whatever calls there were: under a clean strong verdict every authoritative deny
      was recorded, as a deny and under this correlation. */
  lemma CleanMeansRecorded(authoritative: seq<Deny>, c: Option<string>, calls: seq<Row>, i: nat)
    requires Clean(true, authoritative, Of(InsertAll([], calls), c)) && i < |authoritative|
    ensures RecordedAs(calls, c, authoritative[i].decisionId)
  {
    var rows := InsertAll([], calls);
    var mine := Denies(Of(rows, c));
    CleanIsEqual(true, authoritative, Of(rows, c));
    var key := DenyKeys(true, authoritative)[i];
    assert key in multiset(DenyKeys(true, authoritative));
    assert key in multiset(MirrorKeys(true, mine));
    var j :| 0 <= j < |mine| && MirrorKeys(true, mine)[j] == key;
    MembersOfDenies(Of(rows, c), mine[j]);
    MembersOf(rows, c, mine[j]);
    RowsComeFromCalls(calls, mine[j]);
    var k :| 0 <= k < |calls| && Same(calls[k], mine[j]);
    assert DeniedUnder(c, calls[k]) && calls[k].toolUseId == authoritative[i].decisionId;
  }

  /** Through the writer the strong verdict is exact: it is clean exactly when every
      authoritative deny was recorded. */
  lemma CleanExactlyWhenRecorded(authoritative: seq<Deny>, c: Option<string>, calls: seq<Row>)
    requires Distinct(DenyKeys(true, authoritative)) && CallsMatch(authoritative, c, calls)
    ensures Clean(true, authoritative, Of(InsertAll([], calls), c)) <==>
            forall i | 0 <= i < |authoritative| :: RecordedAs(calls, c, authoritative[i].decisionId)
  {
    if Clean(true, authoritative, Of(InsertAll([], calls), c)) {
      forall i | 0 <= i < |authoritative| ensures RecordedAs(calls, c, authoritative[i].decisionId) {
        CleanMeansRecorded(authoritative, c, calls, i);
      }
    }
    if forall i | 0 <= i < |authoritative| :: RecordedAs(calls, c, authoritative[i].decisionId) {
      RecordedDeniesAreClean(authoritative, c, calls);
    }
  }
}
