/** The graph of in-flight delegations: `src/salient_core/coord/delegation_graph.py`.

    An edge is a call in flight, `caller -> target`. Parallel edges and
    self-loops are allowed, as they are in the registry the helpers read. */
module DelegationGraph {
  import opened Wrappers
  import opened Sequences

  datatype Call = Call(caller: string, target: string)

  // ---- Reference notions: walks, loops, acyclicity ----

  ghost predicate Walk(calls: seq<Call>, p: seq<string>) {
    && p != []
    && forall i | 0 <= i < |p| - 1 :: Call(p[i], p[i + 1]) in calls
  }

  /** `p` is a walk from `a` to `b`; it uses `|p| - 1` edges. */
  ghost predicate Route(calls: seq<Call>, a: string, b: string, p: seq<string>) {
    Walk(calls, p) && p[0] == a && Last(p) == b
  }

  ghost predicate Acyclic(calls: seq<Call>) {
    forall p | Walk(calls, p) && |p| >= 2 :: p[0] != Last(p)
  }

  /** The loop `caller -> target -> ... -> caller` that the depth-bounded
      search is able to see. */
  ghost predicate CycleVisible(calls: seq<Call>, caller: string, target: string, maxDepth: int) {
    caller == target || exists p :: Route(calls, target, caller, p) && |p| - 1 <= maxDepth + 1
  }

  /** What `find_cycle` promises about its result. */
  ghost predicate FindCycleSpec(calls: seq<Call>, caller: string, target: string, maxDepth: int,
                                r: Option<seq<string>>) {
    && (r.Some? <==> CycleVisible(calls, caller, target, maxDepth))
    && (r.Some? && caller == target ==> r.value == [target, caller])
    && (r.Some? && caller != target ==>
          && |r.value| >= 3
          && Last(r.value) == target
          && Route(calls, target, caller, Front(r.value))
          && forall q | Route(calls, target, caller, q) :: |Front(r.value)| <= |q|)
  }

  // ---- build_adjacency ----

  function TargetsOf(calls: seq<Call>, n: string): (r: seq<string>)
    ensures forall t :: t in r <==> Call(n, t) in calls
  {
    if calls == [] then []
    else
      var last := calls[|calls| - 1];
      TargetsOf(calls[..|calls| - 1], n) + if last.caller == n then [last.target] else []
  }

  /** Looking a node up in `adj` lists the targets of its calls, in call order,
      with one entry per call. */
  ghost predicate IsAdjacency(calls: seq<Call>, adj: map<string, seq<string>>) {
    && (forall n :: Out(adj, n) == TargetsOf(calls, n))
    && (forall n | n in adj :: adj[n] != [])
  }

  /** The agents that place calls, in the order of their first call. */
  function Callers(calls: seq<Call>): (r: seq<string>)
    ensures forall n :: n in r <==> exists c :: c in calls && c.caller == n
  {
    if calls == [] then []
    else
      var r := Callers(Front(calls));
      assert calls == Front(calls) + [Last(calls)];
      if Last(calls).caller in r then r else r + [Last(calls).caller]
  }

  /** `keys` is the order in which iterating over the dictionary lists its keys. */
  method BuildAdjacency(calls: seq<Call>) returns (adj: map<string, seq<string>>, keys: seq<string>)
    ensures IsAdjacency(calls, adj)
    ensures keys == Callers(calls)
  {
    adj, keys := map[], [];
    for i := 0 to |calls|
      invariant IsAdjacency(calls[..i], adj)
      invariant keys == Callers(calls[..i])
    {
      AdjacencyAppend(calls[..i], adj, calls[i]);
      assert calls[..i + 1] == calls[..i] + [calls[i]];
      assert Front(calls[..i + 1]) == calls[..i];
      if calls[i].caller !in keys {
        keys := keys + [calls[i].caller];
      }
      adj := adj[calls[i].caller := Out(adj, calls[i].caller) + [calls[i].target]];
    }
    assert calls[..|calls|] == calls;
  }

  lemma TargetsOfAppend(calls: seq<Call>, call: Call, n: string)
    ensures TargetsOf(calls + [call], n)
         == TargetsOf(calls, n) + if call.caller == n then [call.target] else []
  {
    assert (calls + [call])[..|calls|] == calls;
  }

  lemma AdjacencyAppend(calls: seq<Call>, adj: map<string, seq<string>>, call: Call)
    requires IsAdjacency(calls, adj)
    ensures IsAdjacency(calls + [call], adj[call.caller := Out(adj, call.caller) + [call.target]])
  {
    var adj' := adj[call.caller := Out(adj, call.caller) + [call.target]];
    forall n ensures Out(adj', n) == TargetsOf(calls + [call], n) {
      assert Out(adj, n) == TargetsOf(calls, n);
      TargetsOfAppend(calls, call, n);
    }
  }

  /** `adj.get(n, ())` */
  function Out(adj: map<string, seq<string>>, n: string): seq<string> {
    if n in adj then adj[n] else []
  }

  function AdjacencyOf(calls: seq<Call>): map<string, seq<string>> {
    map n | n in Callers(calls) :: TargetsOf(calls, n)
  }

  lemma OneAdjacency(calls: seq<Call>, adj: map<string, seq<string>>)
    requires IsAdjacency(calls, adj)
    ensures adj == AdjacencyOf(calls)
  {
    forall n ensures n in adj <==> n in Callers(calls) {
      assert Out(adj, n) == TargetsOf(calls, n);
      if n in adj {
        assert Call(n, adj[n][0]) in calls;
      }
      if c :| c in calls && c.caller == n {
        assert c == Call(n, c.target);
      }
    }
    forall n | n in adj ensures adj[n] == TargetsOf(calls, n) {
      assert Out(adj, n) == TargetsOf(calls, n);
    }
  }

  // ---- find_cycle: breadth-first search with a depth bound ----

  /** Every visited node but the start has a parent one level up. */
  ghost predicate Labelled(calls: seq<Call>, target: string, visited: set<string>,
                           parents: map<string, string>, level: map<string, nat>) {
    && level.Keys == visited
    && target in visited && level[target] == 0
    && parents.Keys == visited - {target}
    && forall n | n in parents ::
         && parents[n] in visited
         && Call(parents[n], n) in calls
         && level[n] == level[parents[n]] + 1
  }

  /** Nodes wait in the queue in level order, with at most two levels present. */
  ghost predicate Queued(queue: seq<(string, int)>, level: map<string, nat>, depth: int) {
    && (forall i | 0 <= i < |queue| ::
          && queue[i].0 in level
          && level[queue[i].0] == queue[i].1
          && depth <= queue[i].1 <= depth + 1)
    && (forall i, j | 0 <= i < j < |queue| :: queue[i].1 <= queue[j].1)
  }

  lemma QueuedGrows(queue: seq<(string, int)>, level: map<string, nat>, depth: nat, n: string)
    requires Queued(queue, level, depth) && n !in level
    ensures Queued(queue + [(n, depth + 1)], level[n := depth + 1], depth)
  {
  }

  ghost function Waiting(queue: seq<(string, int)>): set<string> {
    set e | e in queue :: e.0
  }

  lemma WaitingAppend(queue: seq<(string, int)>, e: (string, int))
    ensures Waiting(queue + [e]) == Waiting(queue) + {e.0}
  {
    assert forall x :: x in queue + [e] <==> x in queue || x == e;
  }

  /** `n` has been expanded: none of its calls goes to `caller`, and each goes
      to a node already visited, at most one level further. */
  ghost predicate Expanded(calls: seq<Call>, caller: string, level: map<string, nat>, n: string)
    requires n in level
  {
    forall t | Call(n, t) in calls :: t != caller && t in level && level[t] <= level[n] + 1
  }

  /** Everything visited has been expanded, except the nodes in `open`. */
  ghost predicate Closed(calls: seq<Call>, caller: string, level: map<string, nat>, open: set<string>) {
    forall n | n in level && n !in open :: Expanded(calls, caller, level, n)
  }

  /** A walk out of the start either passes an open node no later than that
      node's level, or ends in an expanded node. */
  lemma {:induction false} WalkMeetsOpen(calls: seq<Call>, caller: string, level: map<string, nat>,
                                         open: set<string>, q: seq<string>)
    requires Closed(calls, caller, level, open)
    requires open <= level.Keys
    requires Walk(calls, q) && q[0] in level && level[q[0]] == 0
    ensures || (exists i | 0 <= i < |q| :: q[i] in open && level[q[i]] <= i)
            || (Last(q) in level && Last(q) !in open && level[Last(q)] <= |q| - 1)
  {
    if |q| > 1 {
      var p := Front(q);
      WalkMeetsOpen(calls, caller, level, open, p);
      if i :| 0 <= i < |p| && p[i] in open && level[p[i]] <= i {
        assert q[i] in open;
      } else {
        assert Call(q[|q| - 2], q[|q| - 1]) in calls;
        assert Expanded(calls, caller, level, Last(p));
      }
    }
  }

  /** While every open node is at level `depth` or deeper and the caller has not
      been visited, no route to the caller has `depth` edges or fewer. */
  lemma RoutesAreLong(calls: seq<Call>, caller: string, target: string, level: map<string, nat>,
                      open: set<string>, depth: int)
    requires Closed(calls, caller, level, open)
    requires open <= level.Keys && caller !in level
    requires target in level && level[target] == 0
    requires forall n | n in open :: depth <= level[n]
    ensures forall q | Route(calls, target, caller, q) :: open != {} && |q| >= depth + 2
  {
    forall q | Route(calls, target, caller, q) ensures open != {} && |q| >= depth + 2 {
      WalkMeetsOpen(calls, caller, level, open, q);
      var i :| 0 <= i < |q| && q[i] in open && level[q[i]] <= i;
      assert q[i] != caller;
    }
  }

  /** Follow the parents back from `node` to the start and append the closing edge. */
  method Reconstruct(calls: seq<Call>, caller: string, target: string, node: string,
                     parents: map<string, string>, ghost visited: set<string>, ghost level: map<string, nat>)
    returns (loop: seq<string>)
    requires Labelled(calls, target, visited, parents, level)
    requires node in visited && Call(node, caller) in calls
    ensures |loop| == level[node] + 3 && Last(loop) == target
    ensures Route(calls, target, caller, Front(loop))
  {
    var path := [caller, node];
    var cur := node;
    while cur in parents
      invariant cur in visited
      invariant |path| == level[node] - level[cur] + 2
      invariant path[0] == caller && Last(path) == cur
      invariant forall i | 0 <= i < |path| - 1 :: Call(path[i + 1], path[i]) in calls
      decreases level[cur]
    {
      cur := parents[cur];
      path := path + [cur];
    }
    assert cur == target;
    var forward := Reverse(path);
    forall i | 0 <= i < |forward| - 1 ensures Call(forward[i], forward[i + 1]) in calls {
      var k := |path| - 2 - i;
      assert Call(path[k + 1], path[k]) in calls;
    }
    loop := forward + [target];
    assert Front(loop) == forward;
  }

  /** The search invariant while the nodes in `open` still have to be expanded
      and the search stands at level `depth`. */
  ghost predicate Searching(calls: seq<Call>, caller: string, target: string, visited: set<string>,
                            parents: map<string, string>, level: map<string, nat>,
                            queue: seq<(string, int)>, open: set<string>, depth: int) {
    && Labelled(calls, target, visited, parents, level)
    && caller !in visited
    && Queued(queue, level, depth)
    && (forall n | n in level :: level[n] <= depth + 1)
    && open <= visited
    && (forall n | n in open :: depth <= level[n])
    && Closed(calls, caller, level, open)
  }

  lemma SearchStarts(calls: seq<Call>, caller: string, target: string)
    requires caller != target
    ensures Searching(calls, caller, target, {target}, map[], map[target := 0], [(target, 0)], Waiting([(target, 0)]), 0)
  {
    WaitingAppend([], (target, 0));
    assert [] + [(target, 0)] == [(target, 0)];
  }

  lemma PopOpens(calls: seq<Call>, caller: string, target: string, visited: set<string>,
                 parents: map<string, string>, level: map<string, nat>, queue: seq<(string, int)>)
    requires queue != []
    requires Searching(calls, caller, target, visited, parents, level, queue, Waiting(queue), queue[0].1)
    ensures Searching(calls, caller, target, visited, parents, level, queue[1..],
                      Waiting(queue[1..]) + {queue[0].0}, queue[0].1)
    ensures queue[0].0 in visited && level[queue[0].0] == queue[0].1
  {
    assert queue == [queue[0]] + queue[1..];
    assert queue[0].0 in level;
    assert Waiting(queue) == Waiting(queue[1..]) + {queue[0].0};
  }

  lemma VisitKeepsSearching(calls: seq<Call>, caller: string, target: string, visited: set<string>,
                            parents: map<string, string>, level: map<string, nat>,
                            queue: seq<(string, int)>, node: string, depth: nat, nxt: string)
    requires Searching(calls, caller, target, visited, parents, level, queue, Waiting(queue) + {node}, depth)
    requires level[node] == depth && Call(node, nxt) in calls
    requires nxt !in visited && nxt != caller
    ensures Searching(calls, caller, target, visited + {nxt}, parents[nxt := node], level[nxt := depth + 1],
                      queue + [(nxt, depth + 1)], Waiting(queue + [(nxt, depth + 1)]) + {node}, depth)
  {
    WaitingAppend(queue, (nxt, depth + 1));
    QueuedGrows(queue, level, depth, nxt);
    VisitKeepsClosed(calls, caller, level, Waiting(queue) + {node}, nxt, depth + 1);
    assert Waiting(queue) + {node} + {nxt} == Waiting(queue + [(nxt, depth + 1)]) + {node};
  }

  lemma VisitKeepsClosed(calls: seq<Call>, caller: string, level: map<string, nat>, open: set<string>,
                         nxt: string, l: nat)
    requires Closed(calls, caller, level, open) && nxt !in level
    ensures Closed(calls, caller, level[nxt := l], open + {nxt})
  {
    forall n | n in level && n !in open ensures Expanded(calls, caller, level[nxt := l], n) {
      assert Expanded(calls, caller, level, n);
    }
  }

  lemma ExpandedCloses(calls: seq<Call>, caller: string, target: string, visited: set<string>,
                       parents: map<string, string>, level: map<string, nat>,
                       queue: seq<(string, int)>, node: string, depth: nat)
    requires Searching(calls, caller, target, visited, parents, level, queue, Waiting(queue) + {node}, depth)
    requires Expanded(calls, caller, level, node)
    ensures Searching(calls, caller, target, visited, parents, level, queue, Waiting(queue),
                      if queue == [] then depth else queue[0].1)
  {
    forall n | n in Waiting(queue) ensures queue[0].1 <= level[n] {
      var e :| e in queue && e.0 == n;
    }
  }

  /** The first `k` targets are not the caller and have been visited; nothing else
      has, and the queue only grew if something was. */
  ghost predicate Scanned(succ: seq<string>, k: nat, caller: string, visited0: set<string>, visited: set<string>,
                          queue0: seq<(string, int)>, queue: seq<(string, int)>) {
    && (forall j | 0 <= j < k && j < |succ| :: succ[j] != caller && succ[j] in visited)
    && visited0 <= visited <= visited0 + Elements(succ)
    && (visited == visited0 ==> queue == queue0)
  }

  lemma ScannedNew(succ: seq<string>, k: nat, nxt: string, caller: string, visited0: set<string>, visited: set<string>,
                   queue0: seq<(string, int)>, queue: seq<(string, int)>, entry: (string, int))
    requires k < |succ| && nxt == succ[k] && Scanned(succ, k, caller, visited0, visited, queue0, queue)
    requires nxt != caller && nxt !in visited
    ensures Scanned(succ, k + 1, caller, visited0, visited + {nxt}, queue0, queue + [entry])
  {
    assert succ[k] in Elements(succ);
  }

  lemma ScannedOld(succ: seq<string>, k: nat, caller: string, visited0: set<string>, visited: set<string>,
                   queue0: seq<(string, int)>, queue: seq<(string, int)>)
    requires k < |succ| && Scanned(succ, k, caller, visited0, visited, queue0, queue)
    requires succ[k] != caller && succ[k] in visited
    ensures Scanned(succ, k + 1, caller, visited0, visited, queue0, queue)
  {
  }

  /** Expand `node`, taken from the queue at level `depth`: either one of its
      calls goes to the caller, or every new target joins the queue. */
  method Expand(calls: seq<Call>, adj: map<string, seq<string>>, caller: string, target: string,
                node: string, depth: nat, queue0: seq<(string, int)>, visited0: set<string>,
                parents0: map<string, string>, ghost level0: map<string, nat>)
    returns (found: Option<seq<string>>, queue: seq<(string, int)>, visited: set<string>,
             parents: map<string, string>, ghost level: map<string, nat>)
    requires IsAdjacency(calls, adj)
    requires Searching(calls, caller, target, visited0, parents0, level0, queue0, Waiting(queue0) + {node}, depth)
    requires level0[node] == depth
    ensures found.Some? ==>
              && |found.value| == depth + 3 && Last(found.value) == target
              && Route(calls, target, caller, Front(found.value))
              && forall q | Route(calls, target, caller, q) :: |q| >= depth + 2
    ensures found.None? ==>
              && Searching(calls, caller, target, visited, parents, level, queue, Waiting(queue),
                           if queue == [] then depth else queue[0].1)
              && visited0 <= visited <= visited0 + Elements(TargetsOf(calls, node))
              && (visited == visited0 ==> queue == queue0)
  {
    queue, visited, parents, level := queue0, visited0, parents0, level0;
    found := None;
    var succ := Out(adj, node);
    for k := 0 to |succ|
      invariant Searching(calls, caller, target, visited, parents, level, queue, Waiting(queue) + {node}, depth)
      invariant node in level && level[node] == depth
      invariant Scanned(succ, k, caller, visited0, visited, queue0, queue)
    {
      var nxt := succ[k];
      if nxt == caller {
        RoutesAreLong(calls, caller, target, level, Waiting(queue) + {node}, depth);
        var loop := Reconstruct(calls, caller, target, node, parents, visited, level);
        return Some(loop), queue, visited, parents, level;
      }
      if nxt !in visited {
        VisitKeepsSearching(calls, caller, target, visited, parents, level, queue, node, depth, nxt);
        ScannedNew(succ, k, nxt, caller, visited0, visited, queue0, queue, (nxt, depth + 1));
        visited := visited + {nxt};
        parents := parents[nxt := node];
        queue := queue + [(nxt, depth + 1)];
        level := level[nxt := depth + 1];
      } else {
        ScannedOld(succ, k, caller, visited0, visited, queue0, queue);
      }
    }
    ExpandedCloses(calls, caller, target, visited, parents, level, queue, node, depth);
  }

  lemma NoneIsExact(calls: seq<Call>, caller: string, target: string, maxDepth: int, visited: set<string>,
                    parents: map<string, string>, level: map<string, nat>, queue: seq<(string, int)>,
                    open: set<string>, depth: int)
    requires Searching(calls, caller, target, visited, parents, level, queue, open, depth)
    requires caller != target && (open == {} || depth > maxDepth)
    ensures FindCycleSpec(calls, caller, target, maxDepth, None)
  {
    RoutesAreLong(calls, caller, target, level, open, depth);
  }

  lemma LoopIsExact(calls: seq<Call>, caller: string, target: string, maxDepth: int, loop: seq<string>, depth: nat)
    requires caller != target && depth <= maxDepth
    requires |loop| == depth + 3 && Last(loop) == target && Route(calls, target, caller, Front(loop))
    requires forall q | Route(calls, target, caller, q) :: |q| >= depth + 2
    ensures FindCycleSpec(calls, caller, target, maxDepth, Some(loop))
  {
  }

  lemma FewerUnvisited(calls: seq<Call>, node: string, nodes: set<string>, visited0: set<string>, visited: set<string>)
    requires forall c | c in calls :: c.target in nodes
    requires visited0 <= nodes
    requires visited0 <= visited <= visited0 + Elements(TargetsOf(calls, node))
    ensures visited <= nodes
    ensures visited == visited0 || nodes - visited < nodes - visited0
  {
    forall t | t in TargetsOf(calls, node) ensures t in nodes {
      assert Call(node, t) in calls;
    }
    if n :| n in visited && n !in visited0 {
      assert n in nodes - visited0;
    }
  }

  method FindCycle(calls: seq<Call>, caller: string, target: string, maxDepth: int := 64)
    returns (r: Option<seq<string>>)
    ensures FindCycleSpec(calls, caller, target, maxDepth, r)
  {
    if caller == target {
      r := Some([target, caller]);
      assert FindCycleSpec(calls, caller, target, maxDepth, r);
      return;
    }
    var adj, _ := BuildAdjacency(calls);
    var parents: map<string, string> := map[];
    var queue: seq<(string, int)> := [(target, 0)];
    var visited := {target};
    ghost var level: map<string, nat> := map[target := 0];
    ghost var nodes := {target} + set c | c in calls :: c.target;
    ghost var now := 0;
    SearchStarts(calls, caller, target);
    while queue != []
      invariant visited <= nodes
      invariant queue != [] ==> now == queue[0].1
      invariant Searching(calls, caller, target, visited, parents, level, queue, Waiting(queue), now)
      decreases nodes - visited, |queue|
    {
      var (node, depth) := queue[0];
      PopOpens(calls, caller, target, visited, parents, level, queue);
      queue := queue[1..];
      if depth > maxDepth {
        NoneIsExact(calls, caller, target, maxDepth, visited, parents, level, queue, Waiting(queue) + {node}, depth);
        return None;
      }
      ghost var visited0 := visited;
      var found;
      found, queue, visited, parents, level :=
        Expand(calls, adj, caller, target, node, depth, queue, visited, parents, level);
      if found.Some? {
        LoopIsExact(calls, caller, target, maxDepth, found.value, depth);
        return found;
      }
      FewerUnvisited(calls, node, nodes, visited0, visited);
      now := if queue == [] then depth else queue[0].1;
    }
    assert Waiting(queue) == {};
    NoneIsExact(calls, caller, target, maxDepth, visited, parents, level, queue, {}, now);
    return None;
  }

  // ---- find_cycles_for_edges ----

  /** One verdict per proposed target, all against the same graph. */
  method FindCyclesForEdges(calls: seq<Call>, owner: string, targets: seq<string>, maxDepth: int := 64)
    returns (r: map<string, Option<seq<string>>>)
    ensures r.Keys == Elements(targets)
    ensures forall t | t in r :: FindCycleSpec(calls, owner, t, maxDepth, r[t])
  {
    r := map[];
    for i := 0 to |targets|
      invariant r.Keys == Elements(targets[..i])
      invariant forall t | t in r :: FindCycleSpec(calls, owner, t, maxDepth, r[t])
    {
      var found := FindCycle(calls, owner, targets[i], maxDepth);
      r := r[targets[i] := found];
      assert targets[..i + 1] == targets[..i] + [targets[i]];
    }
    assert targets[..|targets|] == targets;
  }
}
