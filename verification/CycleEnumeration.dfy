/** Listing every loop of the graph: `all_cycles` in
    `src/salient_core/coord/delegation_graph.py`. */
module CycleEnumeration {
  import opened Sequences
  import opened Rotations
  import opened DelegationGraph

  /** A simple cycle, closed by repeating its first node. */
  ghost predicate IsCycle(calls: seq<Call>, c: seq<string>) {
    && |c| >= 2
    && c[0] == Last(c)
    && Walk(calls, c)
    && Distinct(Front(c))
  }

  ghost predicate SameCycle(c: seq<string>, d: seq<string>)
    requires c != [] && d != []
  {
    IsRotation(Front(c), Front(d))
  }

  /** What `all_cycles` promises: only simple cycles, every simple cycle up to
      rotation, and no cycle twice. */
  ghost predicate AllCyclesSpec(calls: seq<Call>, out: seq<seq<string>>) {
    && (forall i | 0 <= i < |out| :: IsCycle(calls, out[i]))
    && (forall c | IsCycle(calls, c) :: exists i :: 0 <= i < |out| && SameCycle(out[i], c))
    && (forall i, j | 0 <= i < j < |out| :: !SameCycle(out[i], out[j]))
  }

  // ---- The search as a function ----

  /** Some list holds a rotation of the loop `p`, which is open: its first node is not repeated. */
  ghost predicate Listed(out: seq<seq<string>>, p: seq<string>) {
    exists c :: c in out && c != [] && IsRotation(Front(c), p)
  }

  /** The loop `p`, closed by `y`, is listed unless a rotation of it has been. */
  ghost function Record(out: seq<seq<string>>, p: seq<string>, y: string): seq<seq<string>> {
    if Listed(out, p) then out else out + [p + [y]]
  }

  /** The loop that a call from the end of the walk `q` to `y` closes. */
  function Loop(q: seq<string>, y: string): seq<string>
    requires y in q
  {
    q[IndexOf(q, y)..]
  }

  /** Nodes a walk can still step to. */
  function Unvisited(adj: map<string, seq<string>>, s: seq<string>): set<string> {
    (set n, t | n in adj && t in adj[n] :: t) - Elements(s)
  }

  lemma WalkExtends(calls: seq<Call>, s: seq<string>, nxt: string)
    requires s != [] && SimpleWalk(calls, s) && Call(Last(s), nxt) in calls && nxt !in s
    ensures SimpleWalk(calls, s + [nxt]) && Last(s + [nxt]) == nxt
  {
  }

  lemma OneLessUnvisited(adj: map<string, seq<string>>, s: seq<string>, n: string, nxt: string)
    requires nxt in Out(adj, n) && nxt !in s
    ensures Unvisited(adj, s + [nxt]) < Unvisited(adj, s)
  {
    assert nxt in Unvisited(adj, s) - Unvisited(adj, s + [nxt]);
  }

  /** What is listed after `s` has been extended along the first `k` of the calls
      out of its end, in call order. */
  ghost function Explored(adj: map<string, seq<string>>, s: seq<string>, k: nat, out: seq<seq<string>>):
    seq<seq<string>>
    requires s != [] && k <= |Out(adj, Last(s))|
    decreases Unvisited(adj, s), k
  {
    if k == 0 then out
    else
      var nxt := Out(adj, Last(s))[k - 1];
      var before := Explored(adj, s, k - 1, out);
      if nxt in s then Record(before, Loop(s, nxt), nxt)
      else
        OneLessUnvisited(adj, s, Last(s), nxt);
        Explored(adj, s + [nxt], |Out(adj, nxt)|, before)
  }

  /** What is listed below each of the roots in turn. */
  ghost function ExploredFrom(adj: map<string, seq<string>>, roots: seq<string>): seq<seq<string>> {
    if roots == [] then []
    else Explored(adj, [Last(roots)], |Out(adj, Last(roots))|, ExploredFrom(adj, Front(roots)))
  }

  /** What `all_cycles` lists: agents are tried in the order of their first call. */
  ghost function Listing(calls: seq<Call>): seq<seq<string>> {
    ExploredFrom(AdjacencyOf(calls), Callers(calls))
  }

  // ---- The search lists every loop once ----

  /** Only simple cycles, and no cycle twice. */
  ghost predicate Recorded(calls: seq<Call>, out: seq<seq<string>>) {
    && (forall i | 0 <= i < |out| :: IsCycle(calls, out[i]))
    && (forall i, j | 0 <= i < j < |out| :: !SameCycle(out[i], out[j]))
  }

  ghost predicate SimpleWalk(calls: seq<Call>, q: seq<string>) {
    Walk(calls, q) && Distinct(q)
  }

  /** `q` is a simple walk and the call from its end to `y` closes a loop. */
  ghost predicate BackEdge(calls: seq<Call>, q: seq<string>, y: string) {
    SimpleWalk(calls, q) && y in q && Call(Last(q), y) in calls
  }

  lemma BackEdgeClosesCycle(calls: seq<Call>, q: seq<string>, y: string)
    requires BackEdge(calls, q, y)
    ensures IsCycle(calls, Loop(q, y) + [y])
    ensures Front(Loop(q, y) + [y]) == Loop(q, y)
  {
    var c := Loop(q, y) + [y];
    forall i | 0 <= i < |c| - 1 ensures Call(c[i], c[i + 1]) in calls {
      if i < |c| - 2 {
        assert Call(q[IndexOf(q, y) + i], q[IndexOf(q, y) + i + 1]) in calls;
      }
    }
  }

  lemma EveryCycleIsBackEdge(calls: seq<Call>, c: seq<string>)
    requires IsCycle(calls, c)
    ensures BackEdge(calls, Front(c), c[0]) && Loop(Front(c), c[0]) == Front(c)
  {
    assert Call(c[|c| - 2], c[|c| - 1]) in calls;
    assert IndexOf(Front(c), c[0]) == 0;
    assert Front(c)[0..] == Front(c);
  }

  lemma IsOwnRotation(p: seq<string>)
    ensures IsRotation(p, p)
  {
    assert p == Rotate(p, 0);
  }

  lemma RecordedGrows(calls: seq<Call>, out: seq<seq<string>>, c: seq<string>)
    requires Recorded(calls, out) && IsCycle(calls, c) && !Listed(out, Front(c))
    ensures Recorded(calls, out + [c]) && Listed(out + [c], Front(c))
  {
    forall i | 0 <= i < |out| ensures !SameCycle(out[i], c) {
      assert out[i] in out;
    }
    IsOwnRotation(Front(c));
    assert (out + [c])[|out|] == c;
  }

  lemma RecordKeeps(calls: seq<Call>, q: seq<string>, y: string, out: seq<seq<string>>)
    requires BackEdge(calls, q, y) && Recorded(calls, out)
    ensures var out' := Record(out, Loop(q, y), y);
            Recorded(calls, out') && out <= out' && Listed(out', Loop(q, y))
  {
    BackEdgeClosesCycle(calls, q, y);
    if !Listed(out, Loop(q, y)) {
      RecordedGrows(calls, out, Loop(q, y) + [y]);
    }
  }

  lemma StaysListed(out: seq<seq<string>>, out': seq<seq<string>>, p: seq<string>)
    requires out <= out' && Listed(out, p)
    ensures Listed(out', p)
  {
    var c :| c in out && c != [] && IsRotation(Front(c), p);
    assert c in out';
  }

  /** Every loop closed by a simple walk that extends `s` is listed. */
  ghost predicate Covered(calls: seq<Call>, s: seq<string>, out: seq<seq<string>>) {
    forall q, y | s <= q && BackEdge(calls, q, y) :: Listed(out, Loop(q, y))
  }

  /** As `Covered`, for the loops whose next node after `s` is `x`. */
  ghost predicate CoveredVia(calls: seq<Call>, s: seq<string>, x: string, out: seq<seq<string>>) {
    forall q, y | s <= q && BackEdge(calls, q, y) && (if q == s then y else q[|s|]) == x :: Listed(out, Loop(q, y))
  }

  lemma StaysCoveredVia(calls: seq<Call>, s: seq<string>, x: string, out: seq<seq<string>>, out': seq<seq<string>>)
    requires CoveredVia(calls, s, x, out) && out <= out'
    ensures CoveredVia(calls, s, x, out')
  {
    forall q, y | s <= q && BackEdge(calls, q, y) && (if q == s then y else q[|s|]) == x
      ensures Listed(out', Loop(q, y))
    {
      StaysListed(out, out', Loop(q, y));
    }
  }

  /** The branches to the first `k` successors have been settled. */
  ghost predicate CoveredUpTo(calls: seq<Call>, s: seq<string>, succ: seq<string>, k: nat, out: seq<seq<string>>)
    requires k <= |succ|
  {
    forall j | 0 <= j < k :: CoveredVia(calls, s, succ[j], out)
  }

  lemma CoveredOneMore(calls: seq<Call>, s: seq<string>, succ: seq<string>, k: nat,
                       before: seq<seq<string>>, out: seq<seq<string>>)
    requires k < |succ| && before <= out
    requires CoveredUpTo(calls, s, succ, k, before)
    requires CoveredVia(calls, s, succ[k], out)
    ensures CoveredUpTo(calls, s, succ, k + 1, out)
  {
    forall j | 0 <= j < k ensures CoveredVia(calls, s, succ[j], out) {
      assert CoveredVia(calls, s, succ[j], before);
      StaysCoveredVia(calls, s, succ[j], before, out);
    }
  }

  lemma CoveredByBranches(calls: seq<Call>, s: seq<string>, succ: seq<string>, out: seq<seq<string>>)
    requires s != []
    requires forall t :: Call(Last(s), t) in calls ==> t in succ
    requires CoveredUpTo(calls, s, succ, |succ|, out)
    ensures Covered(calls, s, out)
  {
    forall q, y | s <= q && BackEdge(calls, q, y) ensures Listed(out, Loop(q, y)) {
      var x := if q == s then y else q[|s|];
      if q != s {
        assert Call(q[|s| - 1], q[|s|]) in calls;
      }
      assert x in succ;
    }
  }

  /** Exploring below `s + [x]` settles the branch to `x`; when `x` is already on
      `s`, only the loop straight back to it is left. */
  lemma CoveredChild(calls: seq<Call>, s: seq<string>, x: string, out: seq<seq<string>>)
    requires s != []
    requires x !in s ==> Covered(calls, s + [x], out)
    requires x in s && BackEdge(calls, s, x) ==> Listed(out, Loop(s, x))
    ensures CoveredVia(calls, s, x, out)
  {
    forall q, y | s <= q && BackEdge(calls, q, y) && (if q == s then y else q[|s|]) == x
      ensures Listed(out, Loop(q, y))
    {
      if q != s {
        assert s + [x] <= q;
        assert x !in s;
      }
    }
  }

  /** Looking a node up lists the targets of its calls. */
  ghost predicate Leads(calls: seq<Call>, adj: map<string, seq<string>>) {
    forall n, t :: t in Out(adj, n) <==> Call(n, t) in calls
  }

  /** From `before` to `out`, still one list per cycle, and the branches to the
      first `k` successors of the end of `s` have been settled. */
  ghost predicate Settled(calls: seq<Call>, s: seq<string>, succ: seq<string>, k: nat,
                          before: seq<seq<string>>, out: seq<seq<string>>)
    requires k <= |succ|
  {
    Recorded(calls, out) && before <= out && CoveredUpTo(calls, s, succ, k, out)
  }

  lemma SettledByLoop(calls: seq<Call>, s: seq<string>, succ: seq<string>, k: nat,
                      before: seq<seq<string>>, out: seq<seq<string>>)
    requires s != [] && SimpleWalk(calls, s) && k < |succ| && Call(Last(s), succ[k]) in calls
    requires succ[k] in s && Settled(calls, s, succ, k, before, out)
    ensures Settled(calls, s, succ, k + 1, before, Record(out, Loop(s, succ[k]), succ[k]))
  {
    var out' := Record(out, Loop(s, succ[k]), succ[k]);
    RecordKeeps(calls, s, succ[k], out);
    CoveredChild(calls, s, succ[k], out');
    CoveredOneMore(calls, s, succ, k, out, out');
  }

  lemma SettledByWalk(calls: seq<Call>, adj: map<string, seq<string>>, s: seq<string>, succ: seq<string>, k: nat,
                      before: seq<seq<string>>, out: seq<seq<string>>, out': seq<seq<string>>)
    requires Leads(calls, adj)
    requires s != [] && k < |succ| && succ[k] !in s
    requires Settled(calls, s, succ, k, before, out)
    requires Settled(calls, s + [succ[k]], Out(adj, succ[k]), |Out(adj, succ[k])|, out, out')
    ensures Settled(calls, s, succ, k + 1, before, out')
  {
    CoveredByBranches(calls, s + [succ[k]], Out(adj, succ[k]), out');
    CoveredChild(calls, s, succ[k], out');
    CoveredOneMore(calls, s, succ, k, out, out');
  }

  /** Following the next call out of the end of `s`: straight back to a node of
      `s`, or on to a new one. */
  lemma ExploredBack(adj: map<string, seq<string>>, s: seq<string>, nxt: string, k: nat, out: seq<seq<string>>)
    requires s != [] && 0 < k <= |Out(adj, Last(s))| && nxt == Out(adj, Last(s))[k - 1] && nxt in s
    ensures Explored(adj, s, k, out) == Record(Explored(adj, s, k - 1, out), Loop(s, nxt), nxt)
  {
  }

  lemma ExploredOn(adj: map<string, seq<string>>, s: seq<string>, nxt: string, k: nat, out: seq<seq<string>>)
    requires s != [] && 0 < k <= |Out(adj, Last(s))| && nxt == Out(adj, Last(s))[k - 1] && nxt !in s
    ensures Explored(adj, s, k, out) == Explored(adj, s + [nxt], |Out(adj, nxt)|, Explored(adj, s, k - 1, out))
  {
  }

  /** Extending a simple walk along its calls settles every branch. */
  lemma {:induction false} ExploredSettles(calls: seq<Call>, adj: map<string, seq<string>>, s: seq<string>,
                                           k: nat, before: seq<seq<string>>, out: seq<seq<string>>)
    requires Leads(calls, adj) && Recorded(calls, before)
    requires s != [] && SimpleWalk(calls, s) && k <= |Out(adj, Last(s))|
    requires out == Explored(adj, s, k, before)
    ensures Settled(calls, s, Out(adj, Last(s)), k, before, out)
    decreases Unvisited(adj, s), k
  {
    if k > 0 {
      var succ, j := Out(adj, Last(s)), k - 1;
      var nxt, mid := succ[j], Explored(adj, s, j, before);
      assert Call(Last(s), nxt) in calls;
      ExploredSettles(calls, adj, s, j, before, mid);
      if nxt in s {
        ExploredBack(adj, s, nxt, k, before);
        SettledByLoop(calls, s, succ, j, before, mid);
      } else {
        OneLessUnvisited(adj, s, Last(s), nxt);
        WalkExtends(calls, s, nxt);
        ExploredOn(adj, s, nxt, k, before);
        ExploredSettles(calls, adj, s + [nxt], |Out(adj, nxt)|, mid, out);
        SettledByWalk(calls, adj, s, succ, j, before, mid, out);
      }
    }
  }

  /** Everything below each of the roots has been settled. */
  ghost predicate RootsCovered(calls: seq<Call>, roots: seq<string>, out: seq<seq<string>>) {
    forall r | r in roots :: Covered(calls, [r], out)
  }

  lemma RootsOneMore(calls: seq<Call>, roots: seq<string>, r: string, before: seq<seq<string>>, out: seq<seq<string>>)
    requires RootsCovered(calls, roots, before) && before <= out && Covered(calls, [r], out)
    ensures RootsCovered(calls, roots + [r], out)
  {
    forall x | x in roots ensures Covered(calls, [x], out) {
      assert Covered(calls, [x], before);
      forall q, y | [x] <= q && BackEdge(calls, q, y) ensures Listed(out, Loop(q, y)) {
        StaysListed(before, out, Loop(q, y));
      }
    }
  }

  lemma {:induction false} RootsExplored(calls: seq<Call>, adj: map<string, seq<string>>, roots: seq<string>)
    requires Leads(calls, adj)
    ensures Recorded(calls, ExploredFrom(adj, roots)) && RootsCovered(calls, roots, ExploredFrom(adj, roots))
  {
    if roots != [] {
      RootsExplored(calls, adj, Front(roots));
      var r, before := Last(roots), ExploredFrom(adj, Front(roots));
      var out := Explored(adj, [r], |Out(adj, r)|, before);
      ExploredSettles(calls, adj, [r], |Out(adj, r)|, before, out);
      CoveredByBranches(calls, [r], Out(adj, r), out);
      RootsOneMore(calls, Front(roots), r, before, out);
      assert roots == Front(roots) + [r];
    }
  }

  lemma RecordedMeetsSpec(calls: seq<Call>, out: seq<seq<string>>)
    requires Recorded(calls, out) && RootsCovered(calls, Callers(calls), out)
    ensures AllCyclesSpec(calls, out)
  {
    forall c | IsCycle(calls, c) ensures exists i :: 0 <= i < |out| && SameCycle(out[i], c) {
      EveryCycleIsBackEdge(calls, c);
      assert Call(c[0], c[1]) in calls;
      assert c[0] in Callers(calls);
      assert [c[0]] <= Front(c);
      var d :| d in out && d != [] && IsRotation(Front(d), Front(c));
      var i :| 0 <= i < |out| && out[i] == d;
      assert SameCycle(out[i], c);
    }
  }

  /** Starting once from every agent that places calls finds every simple cycle
      exactly once up to rotation. */
  lemma EveryCycleIsListed(calls: seq<Call>)
    ensures AllCyclesSpec(calls, Listing(calls))
  {
    assert Leads(calls, AdjacencyOf(calls));
    RootsExplored(calls, AdjacencyOf(calls), Callers(calls));
    RecordedMeetsSpec(calls, Listing(calls));
  }

  // ---- Which rotation is listed ----

  /** "Rotated so the lexically smallest node leads", closed by repeating it. */
  predicate InCanonicalForm(c: seq<string>) {
    c != [] && Front(c) == Canonical(Front(c))
  }

  lemma CanonicalStartsLeast(p: seq<string>)
    requires p != [] && Distinct(p)
    ensures Canonical(p) == p <==> forall i | 0 <= i < |p| :: LexLeq(p[0], p[i])
  {
    var m := LeastAt(p);
    if Canonical(p) == p {
      assert p[0] == p[m];
    }
    if forall i | 0 <= i < |p| :: LexLeq(p[0], p[i]) {
      LexAntisymmetric(p[0], p[m]);
    }
  }

  /** What is listed for a loop is in canonical form exactly when the walk
      happened to enter the loop at its least node. */
  lemma CanonicalExactly(q: seq<string>, y: string)
    requires Distinct(q) && y in q
    ensures InCanonicalForm(Loop(q, y) + [y]) <==> forall x | x in Loop(q, y) :: LexLeq(y, x)
  {
    var p := Loop(q, y);
    assert Front(p + [y]) == p;
    CanonicalStartsLeast(p);
  }

  /** Two agents that call each other, seen from one of them. */
  lemma TwoAgents(adj: map<string, seq<string>>, x: string, y: string, out: seq<seq<string>>)
    requires x != y && Out(adj, x) == [y] && Out(adj, y) == [x]
    ensures Explored(adj, [x], 1, out) == Record(out, [x, y], x)
  {
    var s := [x] + [y];
    assert Last(s) == y && IndexOf(s, x) == 0;
    assert Loop(s, x) == [x, y];
    assert Explored(adj, s, 1, out) == Record(out, Loop(s, x), x);
  }

  lemma PairGraph(x: string, y: string)
    requires x != y
    ensures var calls := [Call(x, y), Call(y, x)];
            Callers(calls) == [x, y] && TargetsOf(calls, x) == [y] && TargetsOf(calls, y) == [x]
  {
    var calls, first := [Call(x, y), Call(y, x)], [Call(x, y)];
    assert Front(calls) == calls[..1] == first && Front(first) == first[..0] == [];
    assert Callers(first) == [x];
    assert TargetsOf(first, x) == [y] && TargetsOf(first, y) == [];
  }

  lemma PairIsListed(x: string, y: string)
    ensures Listed([[x, y, x]], [y, x])
  {
    assert Front([x, y, x]) == [x, y] && [y, x] == Rotate([x, y], 1);
    assert [x, y, x] in [[x, y, x]];
  }

  lemma PairExplored(adj: map<string, seq<string>>, x: string, y: string)
    requires x != y && Out(adj, x) == [y] && Out(adj, y) == [x]
    ensures ExploredFrom(adj, [x, y]) == [[x, y, x]]
  {
    assert Front([x, y]) == [x] && Front([x]) == [];
    TwoAgents(adj, x, y, []);
    assert !Listed([], [x, y]) && [x, y] + [x] == [x, y, x];
    assert ExploredFrom(adj, [x]) == [[x, y, x]];
    TwoAgents(adj, y, x, [[x, y, x]]);
    PairIsListed(x, y);
  }

  lemma PairForm(x: string, y: string)
    requires x != y
    ensures InCanonicalForm([x, y, x]) <==> LexLeq(x, y)
  {
    var p := [x, y];
    assert Front([x, y, x]) == p;
    CanonicalStartsLeast(p);
    LexTotal(x, x);
    assert p[0] == x && p[1] == y;
  }

  /** Of two agents that call each other the one that called first leads the
      listed loop, whichever name is the lesser. */
  lemma FirstCallerLeads(x: string, y: string)
    requires x != y
    ensures Listing([Call(x, y), Call(y, x)]) == [[x, y, x]]
    ensures InCanonicalForm([x, y, x]) <==> LexLeq(x, y)
  {
    PairGraph(x, y);
    PairExplored(AdjacencyOf([Call(x, y), Call(y, x)]), x, y);
    PairForm(x, y);
  }

  /** The input `[b -> a, a -> b]` lists `[b, a, b]`, which is not in canonical form. */
  lemma NotAlwaysCanonical()
    ensures Listing([Call("b", "a"), Call("a", "b")]) == [["b", "a", "b"]]
    ensures !InCanonicalForm(["b", "a", "b"])
  {
    FirstCallerLeads("b", "a");
  }

  // ---- The depth-first search ----

  /** The keys of the loops listed so far, which have no repeated nodes. */
  ghost predicate Keyed(seen: set<seq<string>>, out: seq<seq<string>>) {
    && (forall c | c in out :: c != [] && Distinct(Front(c)) && Canonical(Front(c)) in seen)
    && (forall k | k in seen :: exists c :: c in out && c != [] && Canonical(Front(c)) == k)
  }

  lemma KeyMeansListed(seen: set<seq<string>>, out: seq<seq<string>>, p: seq<string>)
    requires Keyed(seen, out) && Distinct(p)
    ensures Canonical(p) in seen <==> Listed(out, p)
  {
    if Canonical(p) in seen {
      var c :| c in out && c != [] && Canonical(Front(c)) == Canonical(p);
      CanonicalIsKey(Front(c), p);
    }
    if Listed(out, p) {
      var c :| c in out && c != [] && IsRotation(Front(c), p);
      CanonicalIsKey(Front(c), p);
    }
  }

  lemma KeyedGrows(seen: set<seq<string>>, out: seq<seq<string>>, c: seq<string>)
    requires Keyed(seen, out) && c != [] && Distinct(Front(c))
    ensures Keyed(seen + {Canonical(Front(c))}, out + [c])
  {
    var out' := out + [c];
    assert forall d :: d in out' <==> d in out || d == c;
    forall k | k in seen + {Canonical(Front(c))} ensures exists d :: d in out' && d != [] && Canonical(Front(d)) == k {
      if k in seen {
        var d :| d in out && d != [] && Canonical(Front(d)) == k;
        assert d in out';
      } else {
        assert c in out';
      }
    }
  }

  /** The state the recursive closure `dfs` shares: the path being walked and
      the cycles found so far. */
  class CycleSearch {
    const adj: map<string, seq<string>>
    var stack: seq<string>
    var onStack: set<string>
    var seen: set<seq<string>>
    var out: seq<seq<string>>

    ghost predicate Valid()
      reads this
    {
      onStack == Elements(stack) && Distinct(stack) && Keyed(seen, out)
    }

    constructor (adj: map<string, seq<string>>)
      ensures Valid() && out == []
      ensures this.adj == adj
    {
      this.adj := adj;
      stack, onStack, seen, out := [], {}, {}, [];
    }

    /** Record the loop that the call from the end of the stack to `nxt` closes,
        unless the key of a rotation of it has been seen before. */
    method RecordLoop(nxt: string)
      requires Valid() && nxt in stack
      modifies this`seen, this`out
      ensures Valid()
      ensures out == Record(old(out), Loop(stack, nxt), nxt)
    {
      var cycle := stack[IndexOf(stack, nxt)..] + [nxt];
      assert Front(cycle) == Loop(stack, nxt);
      KeyMeansListed(seen, out, Loop(stack, nxt));
      var key := Canonical(Front(cycle));
      if key !in seen {
        KeyedGrows(seen, out, cycle);
        seen := seen + {key};
        out := out + [cycle];
      }
    }

    /** Walk on from the end of the stack, which is restored. */
    method Dfs()
      requires Valid() && stack != []
      modifies this`stack, this`onStack, this`seen, this`out
      ensures Valid() && stack == old(stack)
      ensures out == Explored(adj, stack, |Out(adj, Last(stack))|, old(out))
      decreases Unvisited(adj, stack), 1
    {
      var succ := Out(adj, Last(stack));
      for k := 0 to |succ|
        invariant Valid() && stack == old(stack)
        invariant out == Explored(adj, stack, k, old(out))
      {
        Follow(succ[k]);
      }
    }

    /** Follow one call out of the end of the stack: record the loop it closes,
        or walk on from its target. */
    method Follow(nxt: string)
      requires Valid() && stack != [] && nxt in Out(adj, Last(stack))
      modifies this`stack, this`onStack, this`seen, this`out
      ensures Valid() && stack == old(stack)
      ensures nxt in stack ==> out == Record(old(out), Loop(stack, nxt), nxt)
      ensures nxt !in stack ==> out == Explored(adj, stack + [nxt], |Out(adj, nxt)|, old(out))
      decreases Unvisited(adj, stack), 0
    {
      if nxt in onStack {
        RecordLoop(nxt);
      } else {
        OneLessUnvisited(adj, stack, Last(stack), nxt);
        stack := stack + [nxt];
        onStack := onStack + {nxt};
        Dfs();
        onStack := onStack - {nxt};
        stack := Front(stack);
      }
    }
  }

  /** Search from every node that has outgoing calls, in the order of their
      first call. */
  method AllCycles(calls: seq<Call>) returns (out: seq<seq<string>>)
    ensures out == Listing(calls)
    ensures AllCyclesSpec(calls, out)
  {
    var adj, roots := BuildAdjacency(calls);
    OneAdjacency(calls, adj);
    var search := new CycleSearch(adj);
    for i := 0 to |roots|
      invariant fresh(search) && search.adj == adj
      invariant search.Valid() && search.out == ExploredFrom(adj, roots[..i])
    {
      search.stack, search.onStack := [roots[i]], {roots[i]};
      search.Dfs();
      assert Front(roots[..i + 1]) == roots[..i];
    }
    assert roots[..|roots|] == roots;
    EveryCycleIsListed(calls);
    return search.out;
  }
}
