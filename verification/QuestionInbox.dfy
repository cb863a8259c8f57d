/** The operator's inbox: `QuestionInbox` in
    `src/salient_core/coord/questions.py:48-304`. */
module QuestionInbox {
  import opened Sequences
  import opened Wrappers

  /** `answer` is set once the question is answered, whatever resolved it. */
  datatype Question = Question(id: int, agent: string, kind: string, text: string, answer: Option<string>)

  datatype Inbox = Inbox(questions: seq<Question>, nextId: int)

  // ---- Pruning ----

  function Answered(qs: seq<Question>): seq<Question> {
    if qs == [] then []
    else (if qs[0].answer.Some? then [qs[0]] else []) + Answered(qs[1..])
  }

  function Unanswered(qs: seq<Question>): seq<Question> {
    if qs == [] then []
    else (if qs[0].answer.None? then [qs[0]] else []) + Unanswered(qs[1..])
  }

  /** Without the first `n` answered questions. */
  function DropAnswered(qs: seq<Question>, n: nat): seq<Question> {
    if qs == [] || n == 0 then qs
    else if qs[0].answer.Some? then DropAnswered(qs[1..], n - 1)
    else [qs[0]] + DropAnswered(qs[1..], n)
  }

  function Excess(qs: seq<Question>, maxAnswered: int): nat {
    var all, kept := |Answered(qs)|, if maxAnswered < 0 then 0 else maxAnswered;
    if all <= kept then 0 else all - kept
  }

  function Prune(qs: seq<Question>, maxAnswered: int): seq<Question> {
    DropAnswered(qs, Excess(qs, maxAnswered))
  }

  lemma {:induction false} DropKeepsOrder(qs: seq<Question>, n: nat)
    requires n <= |Answered(qs)|
    ensures Unanswered(DropAnswered(qs, n)) == Unanswered(qs)
    ensures Answered(DropAnswered(qs, n)) == Answered(qs)[n..]
  {
    if qs != [] && n > 0 {
      if qs[0].answer.Some? {
        DropKeepsOrder(qs[1..], n - 1);
      } else {
        DropKeepsOrder(qs[1..], n);
        var rest := DropAnswered(qs[1..], n);
        assert ([qs[0]] + rest)[1..] == rest;
      }
    }
  }

  /** Pruning keeps every unanswered question, and of the answered ones exactly the
      last `maxAnswered` in the order they were asked: not, as promised, the
      `maxAnswered` answered most recently. */
  lemma PruneKeepsExactly(qs: seq<Question>, maxAnswered: int)
    ensures var kept, all := Prune(qs, maxAnswered), Answered(qs);
      && Unanswered(kept) == Unanswered(qs)
      && |Answered(kept)| == Min(|all|, if maxAnswered < 0 then 0 else maxAnswered)
      && Answered(kept) == all[|all| - |Answered(kept)|..]
  {
    DropKeepsOrder(qs, Excess(qs, maxAnswered));
  }

  // ---- The inbox, one operation at a time ----

  datatype Event =
    | Add(agent: string, kind: string, text: string)
    | Resolve(id: int, with: string, resolved: bool)           // `mark_answered` and `expire`
    | Clear(ids: seq<int>, reason: string)

  function IndexOfId(qs: seq<Question>, id: int): (i: nat)
    ensures i <= |qs| && (i < |qs| ==> qs[i].id == id)
    ensures forall k | 0 <= k < i :: qs[k].id != id
  {
    if qs == [] || qs[0].id == id then 0 else 1 + IndexOfId(qs[1..], id)
  }

  function Find(qs: seq<Question>, id: int): Option<Question> {
    var i := IndexOfId(qs, id);
    if i < |qs| then Some(qs[i]) else None
  }

  predicate Open(qs: seq<Question>, id: int) {
    Find(qs, id).Some? && Find(qs, id).value.answer.None?
  }

  /** Set the answer of `id` if it is still open. */
  function SetAnswer(qs: seq<Question>, id: int, text: string): seq<Question> {
    var i := IndexOfId(qs, id);
    if i < |qs| && qs[i].answer.None? then qs[i := qs[i].(answer := Some(text))] else qs
  }

  function SetAnswers(qs: seq<Question>, ids: seq<int>, text: string): seq<Question> {
    if ids == [] then qs else SetAnswer(SetAnswers(qs, Front(ids), text), Last(ids), text)
  }

  ghost predicate Step(maxAnswered: int, s: Inbox, e: Event, t: Inbox) {
    match e
    case Add(agent, kind, text) =>
      t == Inbox(s.questions + [Question(s.nextId, agent, kind, text, None)], s.nextId + 1)
    case Resolve(id, with, resolved) =>
      && resolved == Open(s.questions, id)
      && t == if resolved then s.(questions := Prune(SetAnswer(s.questions, id, with), maxAnswered)) else s
    case Clear(ids, reason) =>
      t == s.(questions := Prune(SetAnswers(s.questions, ids, reason), maxAnswered))
  }

  ghost predicate Run(maxAnswered: int, states: seq<Inbox>, events: seq<Event>) {
    && |states| == |events| + 1
    && forall i | 0 <= i < |events| :: Step(maxAnswered, states[i], events[i], states[i + 1])
  }

  // ---- Ids ----

  ghost predicate Increasing(qs: seq<Question>) {
    forall i, j | 0 <= i < j < |qs| :: qs[i].id < qs[j].id
  }

  ghost predicate Ordered(s: Inbox) {
    Increasing(s.questions) && forall i | 0 <= i < |s.questions| :: s.questions[i].id < s.nextId
  }

  /** Everything in `kept` stands in `qs`, in the same order. */
  lemma {:induction false} DropIsSublist(qs: seq<Question>, n: nat)
    requires Increasing(qs)
    ensures Increasing(DropAnswered(qs, n))
    ensures forall q | q in DropAnswered(qs, n) :: q in qs
  {
    if qs != [] && n > 0 {
      var m := if qs[0].answer.Some? then n - 1 else n;
      DropIsSublist(qs[1..], m);
      var rest := DropAnswered(qs[1..], m);
      forall i | 0 <= i < |rest| ensures qs[0].id < rest[i].id {
        assert rest[i] in qs[1..];
      }
    }
  }

  lemma FindExactly(qs: seq<Question>, id: int, q: Question)
    requires Increasing(qs)
    ensures Find(qs, id) == Some(q) <==> q in qs && q.id == id
    ensures Find(qs, id).None? <==> forall p | p in qs :: p.id != id
  {
  }

  lemma IndexOfIdUnique(qs: seq<Question>, id: int, i: nat)
    requires i <= |qs| && (i < |qs| ==> qs[i].id == id)
    requires forall k | 0 <= k < i :: qs[k].id != id
    ensures IndexOfId(qs, id) == i
  {
  }

  lemma SetAnswerSetsOne(qs: seq<Question>, id: int, text: string)
    requires Increasing(qs)
    ensures Increasing(SetAnswer(qs, id, text))
    ensures forall other | other != id :: Find(SetAnswer(qs, id, text), other) == Find(qs, other)
    ensures Find(SetAnswer(qs, id, text), id) ==
            if Open(qs, id) then Some(Find(qs, id).value.(answer := Some(text))) else Find(qs, id)
    ensures |SetAnswer(qs, id, text)| == |qs| && forall k | 0 <= k < |qs| :: SetAnswer(qs, id, text)[k].id == qs[k].id
  {
    var after := SetAnswer(qs, id, text);
    assert |after| == |qs| && forall k | 0 <= k < |qs| :: after[k].id == qs[k].id;
    forall other ensures IndexOfId(after, other) == IndexOfId(qs, other) {
      IndexOfIdUnique(after, other, IndexOfId(qs, other));
    }
  }

  /** What may become of one question: nothing, an answer if it had none, or removal
      if it has one. */
  ghost predicate MayBecome(p: Option<Question>, q: Option<Question>) {
    || q == p
    || (p.Some? && p.value.answer.Some? && q.None?)
    || (p.Some? && p.value.answer.None? && (q.None? || (q.value.answer.Some? && q.value.(answer := None) == p.value)))
  }

  lemma {:induction false} SetAnswersEach(qs: seq<Question>, ids: seq<int>, text: string, id: int)
    requires Increasing(qs)
    ensures Increasing(SetAnswers(qs, ids, text))
    ensures Find(SetAnswers(qs, ids, text), id) ==
            if id in ids && Open(qs, id) then Some(Find(qs, id).value.(answer := Some(text))) else Find(qs, id)
  {
    if ids != [] {
      SetAnswersEach(qs, Front(ids), text, id);
      SetAnswerSetsOne(SetAnswers(qs, Front(ids), text), Last(ids), text);
      assert id in ids <==> id in Front(ids) || id == Last(ids);
    }
  }

  lemma PruneRemovesAnswered(qs: seq<Question>, maxAnswered: int, id: int)
    requires Increasing(qs)
    ensures Increasing(Prune(qs, maxAnswered))
    ensures Find(Prune(qs, maxAnswered), id) == Find(qs, id)
         || (Find(Prune(qs, maxAnswered), id).None? && Find(qs, id).Some? && Find(qs, id).value.answer.Some?)
  {
    var kept := Prune(qs, maxAnswered);
    DropIsSublist(qs, Excess(qs, maxAnswered));
    if Find(kept, id).Some? {
      FindExactly(kept, id, Find(kept, id).value);
      FindExactly(qs, id, Find(kept, id).value);
    } else if Open(qs, id) {
      var q := Find(qs, id).value;
      PruneKeepsExactly(qs, maxAnswered);
      UnansweredMembers(qs, q);
      UnansweredMembers(kept, q);
      FindExactly(kept, id, q);
      assert false;
    }
  }

  lemma {:induction false} UnansweredMembers(qs: seq<Question>, q: Question)
    ensures q in Unanswered(qs) <==> q in qs && q.answer.None?
  {
    if qs != [] {
      UnansweredMembers(qs[1..], q);
    }
  }

  // ---- Runs ----

  predicate Touches(e: Event, id: int) {
    match e
    case Add(_, _, _) => false
    case Resolve(other, _, _) => other == id
    case Clear(ids, _) => id in ids
  }

  lemma NextKeepsOrder(s: Inbox, agent: string, kind: string, text: string)
    requires Ordered(s)
    ensures var t := Inbox(s.questions + [Question(s.nextId, agent, kind, text, None)], s.nextId + 1);
      Ordered(t) && forall id | id < s.nextId :: Find(t.questions, id) == Find(s.questions, id)
  {
    var added := Question(s.nextId, agent, kind, text, None);
    var qs := s.questions + [added];
    forall id | id < s.nextId ensures Find(qs, id) == Find(s.questions, id) {
      assert Increasing(qs);
      if Find(s.questions, id).Some? {
        FindExactly(s.questions, id, Find(s.questions, id).value);
        FindExactly(qs, id, Find(s.questions, id).value);
      } else {
        FindExactly(s.questions, id, added);
        FindExactly(qs, id, added);
      }
    }
  }

  /** What is asked is what is then listed, open and under the next id, after all the
      others, which do not change. */
  lemma AddedIsListed(maxAnswered: int, s: Inbox, agent: string, kind: string, text: string, t: Inbox)
    requires Ordered(s) && Step(maxAnswered, s, Add(agent, kind, text), t)
    ensures |t.questions| == |s.questions| + 1 && t.questions[..|s.questions|] == s.questions
    ensures var q := t.questions[|s.questions|];
      && q.agent == agent && q.kind == kind && q.text == text && q.answer == None
      && q.id == s.nextId && Find(t.questions, s.nextId) == Some(q)
    ensures t.nextId == s.nextId + 1
  {
    NextKeepsOrder(s, agent, kind, text);
    FindExactly(t.questions, s.nextId, t.questions[|s.questions|]);
  }

  lemma SameIdsStayBelow(qs: seq<Question>, ids: seq<int>, text: string, bound: int)
    requires forall i | 0 <= i < |qs| :: qs[i].id < bound
    ensures forall i | 0 <= i < |SetAnswers(qs, ids, text)| :: SetAnswers(qs, ids, text)[i].id < bound
  {
    if ids != [] {
      SameIdsStayBelow(qs, Front(ids), text, bound);
    }
  }

  lemma PruneStaysBelow(qs: seq<Question>, maxAnswered: int, bound: int)
    requires Increasing(qs) && forall i | 0 <= i < |qs| :: qs[i].id < bound
    ensures Ordered(Inbox(Prune(qs, maxAnswered), bound))
  {
    var kept := Prune(qs, maxAnswered);
    DropIsSublist(qs, Excess(qs, maxAnswered));
    forall i | 0 <= i < |kept| ensures kept[i].id < bound {
      assert kept[i] in qs;
    }
  }

  lemma StepKeepsOrder(maxAnswered: int, s: Inbox, e: Event, t: Inbox)
    requires Ordered(s) && Step(maxAnswered, s, e, t)
    ensures Ordered(t) && s.nextId <= t.nextId
  {
    match e {
      case Add(agent, kind, text) => NextKeepsOrder(s, agent, kind, text);
      case Resolve(id, with, resolved) =>
        if resolved {
          var qs := SetAnswer(s.questions, id, with);
          SetAnswerSetsOne(s.questions, id, with);
          forall k | 0 <= k < |qs| ensures qs[k].id < s.nextId {
            assert qs[k].id == s.questions[k].id;
          }
          PruneStaysBelow(qs, maxAnswered, s.nextId);
        }
      case Clear(ids, reason) =>
        var qs := SetAnswers(s.questions, ids, reason);
        SetAnswersEach(s.questions, ids, reason, 0);
        SameIdsStayBelow(s.questions, ids, reason, s.nextId);
        PruneStaysBelow(qs, maxAnswered, s.nextId);
    }
  }

  lemma StepOnOne(maxAnswered: int, s: Inbox, e: Event, t: Inbox, id: int)
    requires Ordered(s) && Step(maxAnswered, s, e, t) && id < s.nextId
    ensures MayBecome(Find(s.questions, id), Find(t.questions, id))
    ensures Open(s.questions, id) && !Touches(e, id) ==> Find(t.questions, id) == Find(s.questions, id)
    ensures e.Resolve? && e.id == id ==> !Open(t.questions, id)
    ensures Touches(e, id) && Open(s.questions, id) && Find(t.questions, id).Some? ==>
              Find(t.questions, id).value.answer == Some(if e.Resolve? then e.with else e.reason)
  {
    match e {
      case Add(agent, kind, text) => NextKeepsOrder(s, agent, kind, text);
      case Resolve(other, with, resolved) =>
        if resolved {
          SetAnswerSetsOne(s.questions, other, with);
          PruneRemovesAnswered(SetAnswer(s.questions, other, with), maxAnswered, id);
        }
      case Clear(ids, reason) =>
        SetAnswersEach(s.questions, ids, reason, id);
        PruneRemovesAnswered(SetAnswers(s.questions, ids, reason), maxAnswered, id);
    }
  }

  /** In every run the ids in the list stay strictly increasing and below the next one. */
  lemma {:induction false} RunKeepsOrder(maxAnswered: int, states: seq<Inbox>, events: seq<Event>, m: nat, n: nat)
    requires Run(maxAnswered, states, events) && m <= n <= |events| && Ordered(states[m])
    ensures Ordered(states[n]) && states[m].nextId <= states[n].nextId
    decreases n
  {
    if m < n {
      RunKeepsOrder(maxAnswered, states, events, m, n - 1);
      StepKeepsOrder(maxAnswered, states[n - 1], events[n - 1], states[n]);
    }
  }

  /** From one moment of a run to any later one, a question that is answered keeps
      its answer for as long as it is listed, and one that is gone stays gone. */
  lemma {:induction false} AnswersNeverChange(maxAnswered: int, states: seq<Inbox>, events: seq<Event>, m: nat, n: nat, id: int)
    requires Run(maxAnswered, states, events) && m <= n <= |events| && Ordered(states[m]) && id < states[m].nextId
    ensures MayBecome(Find(states[m].questions, id), Find(states[n].questions, id))
    decreases n
  {
    if m < n {
      AnswersNeverChange(maxAnswered, states, events, m, n - 1, id);
      RunKeepsOrder(maxAnswered, states, events, m, n - 1);
      StepOnOne(maxAnswered, states[n - 1], events[n - 1], states[n], id);
    }
  }

  /** An open question is never lost: it is still there, word for word, until an
      event that names it. */
  lemma {:induction false} OpenQuestionsStay(maxAnswered: int, states: seq<Inbox>, events: seq<Event>, m: nat, n: nat, id: int)
    requires Run(maxAnswered, states, events) && m <= n <= |events| && Ordered(states[m]) && id < states[m].nextId
    requires Open(states[m].questions, id) && forall i | m <= i < n :: !Touches(events[i], id)
    ensures Find(states[n].questions, id) == Find(states[m].questions, id)
    decreases n
  {
    if m < n {
      OpenQuestionsStay(maxAnswered, states, events, m, n - 1, id);
      RunKeepsOrder(maxAnswered, states, events, m, n - 1);
      StepOnOne(maxAnswered, states[n - 1], events[n - 1], states[n], id);
    }
  }

  /** A question is resolved at most once in any run, so `expire`, which publishes
      only when it resolves, publishes at most once for it. */
  lemma ResolvedAtMostOnce(maxAnswered: int, states: seq<Inbox>, events: seq<Event>, m: nat, n: nat)
    requires Run(maxAnswered, states, events) && Ordered(states[0]) && m < n < |events|
    requires events[m].Resolve? && events[m].resolved && events[n].Resolve? && events[n].id == events[m].id
    ensures !events[n].resolved
  {
    var id := events[m].id;
    RunKeepsOrder(maxAnswered, states, events, 0, m);
    assert Step(maxAnswered, states[m], events[m], states[m + 1]);
    FindExactly(states[m].questions, id, Find(states[m].questions, id).value);
    StepOnOne(maxAnswered, states[m], events[m], states[m + 1], id);
    RunKeepsOrder(maxAnswered, states, events, m, m + 1);
    AnswersNeverChange(maxAnswered, states, events, m + 1, n, id);
    assert Step(maxAnswered, states[n], events[n], states[n + 1]);
  }

  // ---- Which answer is forgotten ----

  lemma {:induction false} SurvivesExactly(qs: seq<Question>, n: nat, i: nat)
    requires Increasing(qs) && i < |qs| && qs[i].answer.Some?
    ensures qs[i] in DropAnswered(qs, n) <==> |Answered(qs[..i])| >= n
    decreases |qs|
  {
    if n > 0 {
      var rest := qs[1..];
      var m := if qs[0].answer.Some? then n - 1 else n;
      if i == 0 {
        DropIsSublist(rest, m);
        assert qs[..0] == [];
        assert qs[0] !in rest;
      } else {
        SurvivesExactly(rest, m, i - 1);
        assert qs[..i][1..] == rest[..i - 1] && qs[..i][0] == qs[0];
        assert qs[i] == rest[i - 1] && qs[i] != qs[0];
      }
    }
  }

  /** The question just answered is itself dropped, however recent its answer, unless
      at most `maxAnswered` of the questions from it to the end of the list are
      answered. */
  lemma JustAnsweredSurvivesExactly(maxAnswered: int, s: Inbox, id: int, text: string, t: Inbox)
    requires Ordered(s) && Step(maxAnswered, s, Resolve(id, text, true), t)
    ensures var answered := SetAnswer(s.questions, id, text);
      var i := IndexOfId(s.questions, id);
      Find(t.questions, id).Some? <==>
        |Answered(answered)| - |Answered(answered[..i])| <= if maxAnswered < 0 then 0 else maxAnswered
  {
    var qs := SetAnswer(s.questions, id, text);
    var i := IndexOfId(s.questions, id);
    SetAnswerSetsOne(s.questions, id, text);
    SurvivesExactly(qs, Excess(qs, maxAnswered), i);
    DropIsSublist(qs, Excess(qs, maxAnswered));
    FindExactly(qs, id, qs[i]);
    FindExactly(t.questions, id, qs[i]);
    forall q | q in t.questions && q.id == id ensures q == qs[i] {
      FindExactly(qs, id, q);
    }
    AnsweredOfPrefix(qs, i);
  }

  lemma {:induction false} AnsweredOfPrefix(qs: seq<Question>, i: nat)
    requires i < |qs| && qs[i].answer.Some?
    ensures |Answered(qs[..i])| < |Answered(qs)|
  {
    if i > 0 {
      AnsweredOfPrefix(qs[1..], i - 1);
      assert qs[..i][1..] == qs[1..][..i - 1];
    }
  }

  lemma AnsweredPair(p: Question, q: Question)
    ensures Answered([p, q]) == (if p.answer.Some? then [p] else []) + (if q.answer.Some? then [q] else [])
    ensures p.answer.Some? ==> DropAnswered([p, q], 1) == [q]
  {
    assert [p, q][1..] == [q] && [q][1..] == [];
    assert Answered([q]) == if q.answer.Some? then [q] else [];
    assert DropAnswered([q], 0) == [q];
  }

  /** With room for one answered question: the second question is answered, then
      the first, and that newest answer is the one that is gone. */
  lemma NewestAnswerCanBePruned() returns (states: seq<Inbox>)
    ensures var events := [Add("a", "operator", "first"), Add("a", "operator", "second"),
                           Resolve(2, "yes", true), Resolve(1, "no", true)];
      Run(1, states, events) && states[0] == Inbox([], 1)
    ensures Find(states[4].questions, 1).None? && Find(states[4].questions, 2).Some?
  {
    var q1, q2 := Question(1, "a", "operator", "first", None), Question(2, "a", "operator", "second", None);
    var a1, a2 := q1.(answer := Some("no")), q2.(answer := Some("yes"));
    IndexOfIdUnique([q1, q2], 2, 1);
    IndexOfIdUnique([q1, a2], 1, 0);
    assert SetAnswer([q1, q2], 2, "yes") == [q1, a2] && SetAnswer([q1, a2], 1, "no") == [a1, a2];
    AnsweredPair(q1, a2);
    AnsweredPair(a1, a2);
    assert Prune([q1, a2], 1) == [q1, a2] && Prune([a1, a2], 1) == [a2];
    states := [Inbox([], 1), Inbox([q1], 2), Inbox([q1, q2], 3), Inbox([q1, a2], 3), Inbox([a2], 3)];
    IndexOfIdUnique([a2], 1, 1);
    IndexOfIdUnique([a2], 2, 0);
  }

  // ---- Loading from the store ----

  /** A row the store holds for an unanswered question. */
  datatype Pending = Pending(id: int, agent: string, kind: string, text: string)

  /** What the store answers: its unanswered rows and the highest id it ever held. */
  datatype Stored = Stored(rows: seq<Pending>, maxId: int)

  function Loaded(rows: seq<Pending>): (qs: seq<Question>)
    ensures |qs| == |rows|
    ensures forall i | 0 <= i < |rows| ::
              qs[i] == Question(rows[i].id, rows[i].agent, rows[i].kind, rows[i].text, None)
  {
    seq(|rows|, i requires 0 <= i < |rows| => Question(rows[i].id, rows[i].agent, rows[i].kind, rows[i].text, None))
  }

  function Hydrated(s: Inbox, store: Stored): Inbox {
    Inbox(s.questions + Loaded(store.rows), if s.nextId < store.maxId + 1 then store.maxId + 1 else s.nextId)
  }

  /** No id the store ever held is given out again, and numbering goes on without a gap. */
  lemma HydratedIdsAreFresh(s: Inbox, store: Stored)
    ensures var next := Hydrated(s, store).nextId;
      next > store.maxId && next >= s.nextId && (next == s.nextId || next == store.maxId + 1)
  {
  }

  /** The rows are in id order, none above the highest id the store reports. */
  ghost predicate InIdOrder(store: Stored) {
    && (forall i, j | 0 <= i < j < |store.rows| :: store.rows[i].id < store.rows[j].id)
    && (forall i | 0 <= i < |store.rows| :: store.rows[i].id <= store.maxId)
  }

  /** Nothing checks what is in memory already: loading keeps the ids in order
      exactly when nothing is loaded, or the list was empty or ended below the
      first row loaded. */
  lemma HydrateKeepsOrderExactly(s: Inbox, store: Stored)
    requires Ordered(s) && InIdOrder(store)
    ensures Ordered(Hydrated(s, store)) <==>
            store.rows == [] || s.questions == [] || Last(s.questions).id < store.rows[0].id
  {
    var qs, loaded := s.questions, Loaded(store.rows);
    var all := qs + loaded;
    if loaded != [] && qs != [] {
      assert all[|qs| - 1] == Last(qs) && all[|qs|] == loaded[0];
    }
  }

  /** So loading twice lists every row twice. */
  lemma HydratingTwiceBreaksOrder(s: Inbox, store: Stored)
    requires Ordered(s) && InIdOrder(store) && store.rows != []
    requires s.questions == [] || Last(s.questions).id < store.rows[0].id
    ensures Ordered(Hydrated(s, store)) && !Ordered(Hydrated(Hydrated(s, store), store))
  {
    HydrateKeepsOrderExactly(s, store);
    var t := Hydrated(s, store);
    assert Last(t.questions) == Last(Loaded(store.rows));
    HydrateKeepsOrderExactly(t, store);
  }

  // ---- The inbox ----

  class Questions {
    var questions: seq<Question>
    var nextId: int
    const maxAnswered: int
    var futures: map<int, int>   // `_pending`: question id to the future that waits on it
    ghost var announced: seq<int>  // what `expire` has published

    ghost function State(): Inbox
      reads this
    {
      Inbox(questions, nextId)
    }

    ghost predicate Valid()
      reads this
    {
      Ordered(State())
    }

    constructor (maxAnswered: int)
      ensures Valid() && questions == [] && nextId == 1 && futures == map[] && announced == []
      ensures this.maxAnswered == maxAnswered
    {
      questions, nextId, futures, announced := [], 1, map[], [];
      this.maxAnswered := maxAnswered;
    }

    /** Load the store's unanswered rows, and number on from the highest id the
        store ever held. Without a store there is nothing to do. */
    method Hydrate(store: Option<Stored>) returns (count: nat)
      modifies `questions, `nextId
      ensures store.None? ==> State() == old(State()) && count == 0
      ensures store.Some? ==> State() == Hydrated(old(State()), store.value) && count == |store.value.rows|
    {
      if store.None? {
        return 0;
      }
      var rows := store.value.rows;
      var i := 0;
      while i < |rows|
        invariant 0 <= i <= |rows| && nextId == old(nextId)
        invariant questions == old(questions) + Loaded(rows)[..i]
      {
        questions := questions + [Question(rows[i].id, rows[i].agent, rows[i].kind, rows[i].text, None)];
        i := i + 1;
      }
      nextId := if nextId < store.value.maxId + 1 then store.value.maxId + 1 else nextId;
      return |rows|;
    }

    /** `add`, `add_note` and `add_suggestion`. */
    method Add(agent: string, kind: string, text: string) returns (id: int)
      requires Valid()
      modifies `questions, `nextId
      ensures Valid() && Step(maxAnswered, old(State()), Event.Add(agent, kind, text), State())
      ensures id == old(nextId) && Open(questions, id)
    {
      ghost var s := State();
      id := nextId;
      questions := questions + [Question(id, agent, kind, text, None)];
      nextId := nextId + 1;
      StepKeepsOrder(maxAnswered, s, Event.Add(agent, kind, text), State());
      FindExactly(questions, id, questions[|questions| - 1]);
    }

    method MarkAnswered(id: int, text: string) returns (resolved: bool)
      requires Valid()
      modifies `questions
      ensures Valid() && Step(maxAnswered, old(State()), Resolve(id, text, resolved), State())
    {
      ghost var s := State();
      var i := IndexOfId(questions, id);
      if i == |questions| || questions[i].answer.Some? {
        return false;
      }
      questions := questions[i := questions[i].(answer := Some(text))];
      PruneAnswered();
      StepKeepsOrder(maxAnswered, s, Resolve(id, text, true), State());
      return true;
    }

    /** Drop the future, resolve, and publish if that resolved it. */
    method Expire(id: int, reason: string) returns (resolved: bool)
      requires Valid()
      modifies `questions, `futures, `announced
      ensures Valid() && Step(maxAnswered, old(State()), Resolve(id, reason, resolved), State())
      ensures futures == old(futures) - {id}
      ensures announced == old(announced) + (if resolved then [id] else [])
    {
      futures := futures - {id};
      resolved := MarkAnswered(id, reason);
      if resolved {
        announced := announced + [id];
      }
    }

    method Clear(ids: seq<int>, reason: string) returns (cleared: seq<int>)
      requires Valid()
      modifies `questions
      ensures Valid() && Step(maxAnswered, old(State()), Event.Clear(ids, reason), State())
      ensures forall id :: id in cleared <==> id in ids && Open(old(questions), id)
      ensures Distinct(cleared)
    {
      ghost var s := State();
      cleared := [];
      var k := 0;
      while k < |ids|
        invariant 0 <= k <= |ids|
        invariant questions == SetAnswers(s.questions, ids[..k], reason)
        invariant ClearedSoFar(s.questions, ids[..k], cleared)
      {
        var i := IndexOfId(questions, ids[k]);
        OneMoreCleared(s.questions, ids, k, reason, cleared);
        if i < |questions| && questions[i].answer.None? {
          questions := questions[i := questions[i].(answer := Some(reason))];
          cleared := cleared + [ids[k]];
        }
        k := k + 1;
      }
      assert ids[..k] == ids;
      PruneAnswered();
      StepKeepsOrder(maxAnswered, s, Event.Clear(ids, reason), State());
    }

    /** Drop the first answered questions beyond the cap, walking the list once. */
    method PruneAnswered()
      modifies `questions
      ensures questions == Prune(old(questions), maxAnswered)
    {
      var drop := Excess(questions, maxAnswered);
      var kept: seq<Question> := [];
      var i := 0;
      ghost var all := questions;
      while i < |questions|
        invariant 0 <= i <= |questions| && questions == all
        invariant PrunedSoFar(all, i, kept, drop, Prune(all, maxAnswered))
      {
        DropOneMore(all, i, kept, drop, Prune(all, maxAnswered));
        if drop > 0 && questions[i].answer.Some? {
          drop := drop - 1;
        } else {
          kept := kept + [questions[i]];
        }
        i := i + 1;
      }
      questions := kept;
    }
  }

  /** `cleared` are the ids in `ids` that were open at the start, once each. */
  ghost predicate ClearedSoFar(start: seq<Question>, ids: seq<int>, cleared: seq<int>) {
    Distinct(cleared) && forall id :: id in cleared <==> id in ids && Open(start, id)
  }

  lemma OneMoreCleared(start: seq<Question>, ids: seq<int>, k: nat, reason: string, cleared: seq<int>)
    requires Increasing(start) && k < |ids| && ClearedSoFar(start, ids[..k], cleared)
    ensures var qs := SetAnswers(start, ids[..k], reason);
      && SetAnswers(start, ids[..k + 1], reason) == SetAnswer(qs, ids[k], reason)
      && ClearedSoFar(start, ids[..k + 1], if Open(qs, ids[k]) then cleared + [ids[k]] else cleared)
  {
    SetAnswersEach(start, ids[..k], reason, ids[k]);
    assert Front(ids[..k + 1]) == ids[..k] && Last(ids[..k + 1]) == ids[k];
    assert ids[..k + 1] == ids[..k] + [ids[k]];
  }

  /** What is kept of the first `i` questions, and what pruning leaves of the rest. */
  ghost predicate PrunedSoFar(qs: seq<Question>, i: nat, kept: seq<Question>, drop: nat, whole: seq<Question>) {
    i <= |qs| && kept + DropAnswered(qs[i..], drop) == whole
  }

  lemma DropOneMore(qs: seq<Question>, i: nat, kept: seq<Question>, drop: nat, whole: seq<Question>)
    requires i < |qs| && PrunedSoFar(qs, i, kept, drop, whole)
    ensures if drop > 0 && qs[i].answer.Some? then PrunedSoFar(qs, i + 1, kept, drop - 1, whole)
            else PrunedSoFar(qs, i + 1, kept + [qs[i]], drop, whole)
  {
    var here, next := qs[i..], qs[i + 1..];
    assert here[1..] == next && here == [qs[i]] + next;
    if !(drop > 0 && qs[i].answer.Some?) {
      var rest := DropAnswered(next, drop);
      assert DropAnswered(here, drop) == [qs[i]] + rest;
      assert kept + ([qs[i]] + rest) == (kept + [qs[i]]) + rest;
    }
  }
}
