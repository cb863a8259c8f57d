/** Which lines of a stored value `context_grep` and `context_section` print:
    the window loops of `src/salient_core/bus/_context.py:293-312, 348-367`. */
module ContextSlicer {
  import opened Sequences

  /** One printed line; `colon` tells `:` from `-` after the line number. */
  datatype Printed = Printed(index: nat, colon: bool)

  /** `hits[i]` says whether line `i` matches. The windows are cut off at the ends. */
  datatype Query = Query(hits: seq<bool>, before: nat, after: nat, maxMatches: nat)

  // ---- What should be printed, without the loops ----

  function CountHits(hits: seq<bool>): nat {
    if hits == [] then 0 else CountHits(Front(hits)) + (if Last(hits) then 1 else 0)
  }

  /** Line `i` is one of the first `maxMatches` matching lines. */
  predicate Counts(q: Query, i: nat) {
    i < |q.hits| && q.hits[i] && CountHits(q.hits[..i]) < q.maxMatches
  }

  predicate InWindow(q: Query, i: nat, j: nat) {
    j < |q.hits| && i - q.before <= j <= i + q.after
  }

  /** Line `j` is in the window of a counted match before `bound`. */
  predicate Shown(q: Query, bound: nat, j: nat) {
    exists i: nat :: i < bound && Counts(q, i) && InWindow(q, i, j)
  }

  function Flat(blocks: seq<seq<Printed>>): seq<Printed> {
    if blocks == [] then [] else Flat(Front(blocks)) + Last(blocks)
  }

  /** Every shown line once, in strictly increasing order, and nothing else. A line
      gets its colon exactly when it is a counted match that no earlier counted
      match already had in its window. */
  ghost predicate Prints(q: Query, bound: nat, out: seq<Printed>) {
    && (forall a, b | 0 <= a < b < |out| :: out[a].index < out[b].index)
    && (forall a | 0 <= a < |out| ::
          Shown(q, bound, out[a].index) &&
          (out[a].colon <==> Counts(q, out[a].index) && !Shown(q, out[a].index, out[a].index)))
    && (forall j: nat :: Shown(q, bound, j) ==> exists a :: 0 <= a < |out| && out[a].index == j)
  }

  // ---- The loops ----

  method Slice(q: Query) returns (blocks: seq<seq<Printed>>, matches: nat)
    ensures Prints(q, |q.hits|, Flat(blocks))
    ensures forall b | 0 <= b < |blocks| :: blocks[b] != []
    ensures matches == if CountHits(q.hits) <= q.maxMatches then CountHits(q.hits) else q.maxMatches + 1
  {
    var emitted: set<nat> := {};
    blocks, matches := [], 0;
    var i := 0;
    while i < |q.hits|
      invariant 0 <= i <= |q.hits| && matches == CountHits(q.hits[..i]) <= q.maxMatches
      invariant EmittedIs(q, i, emitted) && Prints(q, i, Flat(blocks))
      invariant forall b | 0 <= b < |blocks| :: blocks[b] != []
    {
      TakeOneMore(q.hits, i);
      if q.hits[i] {
        matches := matches + 1;
        if matches > q.maxMatches {
          TheRestIsNotCounted(q, i, Flat(blocks));
          return;
        }
        var block;
        block, emitted := PrintWindow(q, i, emitted);
        OneMoreMatch(q, i, Flat(blocks), block);
        if block != [] {
          FlatAppend(blocks, block);
          blocks := blocks + [block];
        }
      } else {
        NotAMatch(q, i, Flat(blocks));
      }
      i := i + 1;
    }
    assert q.hits[..i] == q.hits;
  }

  ghost predicate EmittedIs(q: Query, bound: nat, emitted: set<nat>) {
    forall j: nat :: j in emitted <==> Shown(q, bound, j)
  }

  /** The lines of match `i`'s window that are not out yet, in order. */
  ghost predicate NewOnes(q: Query, i: nat, hi: int, block: seq<Printed>) {
    && (forall a, b | 0 <= a < b < |block| :: block[a].index < block[b].index)
    && (forall a | 0 <= a < |block| ::
          block[a].index < hi && InWindow(q, i, block[a].index) && !Shown(q, i, block[a].index)
          && (block[a].colon <==> block[a].index == i))
    && (forall j: nat | j < hi && InWindow(q, i, j) && !Shown(q, i, j) ::
          exists a :: 0 <= a < |block| && block[a].index == j)
  }

  /** The inner loop. */
  method PrintWindow(q: Query, i: nat, emitted: set<nat>) returns (block: seq<Printed>, now: set<nat>)
    requires Counts(q, i) && EmittedIs(q, i, emitted)
    ensures NewOnes(q, i, |q.hits|, block)
    ensures EmittedIs(q, i + 1, now)
  {
    var lo := if i - q.before < 0 then 0 else i - q.before;
    var hi := if i + q.after + 1 < |q.hits| then i + q.after + 1 else |q.hits|;
    block, now := [], emitted;
    var j := lo;
    while j < hi
      invariant lo <= j <= hi
      invariant NewOnes(q, i, j, block)
      invariant forall k: nat :: k in now <==> k in emitted || lo <= k < j
    {
      if j !in now {
        OneMoreLine(q, i, j, block);
        block := block + [Printed(j, j == i)];
      }
      now := now + {j};
      j := j + 1;
    }
    forall k: nat ensures k in now <==> Shown(q, i + 1, k) {
      ShownNext(q, i, k);
    }
  }

  lemma OneMoreLine(q: Query, i: nat, j: nat, block: seq<Printed>)
    requires NewOnes(q, i, j, block) && InWindow(q, i, j) && !Shown(q, i, j)
    ensures NewOnes(q, i, j + 1, block + [Printed(j, j == i)])
  {
    var more := block + [Printed(j, j == i)];
    forall k: nat | k < j + 1 && InWindow(q, i, k) && !Shown(q, i, k)
      ensures exists a :: 0 <= a < |more| && more[a].index == k
    {
      if k < j {
        var a :| 0 <= a < |block| && block[a].index == k;
        assert more[a].index == k;
      } else {
        assert more[|block|].index == k;
      }
    }
  }

  lemma ShownNext(q: Query, i: nat, j: nat)
    requires i < |q.hits|
    ensures Shown(q, i + 1, j) <==> Shown(q, i, j) || (Counts(q, i) && InWindow(q, i, j))
  {
  }

  lemma TakeOneMore(hits: seq<bool>, i: nat)
    requires i < |hits|
    ensures CountHits(hits[..i + 1]) == CountHits(hits[..i]) + (if hits[i] then 1 else 0)
    ensures CountHits(hits[..i]) <= CountHits(hits)
  {
    assert Front(hits[..i + 1]) == hits[..i];
    CountIsMonotone(hits, i, |hits|);
    assert hits[..|hits|] == hits;
  }

  lemma {:induction false} CountIsMonotone(hits: seq<bool>, i: nat, j: nat)
    requires i <= j <= |hits|
    ensures CountHits(hits[..i]) <= CountHits(hits[..j])
    decreases j
  {
    if i < j {
      CountIsMonotone(hits, i, j - 1);
      assert Front(hits[..j]) == hits[..j - 1];
    }
  }

  lemma FlatAppend(blocks: seq<seq<Printed>>, block: seq<Printed>)
    ensures Flat(blocks + [block]) == Flat(blocks) + block
  {
    assert Front(blocks + [block]) == blocks;
  }

  lemma NotAMatch(q: Query, i: nat, out: seq<Printed>)
    requires i < |q.hits| && !q.hits[i] && Prints(q, i, out)
    ensures Prints(q, i + 1, out)
    ensures forall j: nat :: Shown(q, i + 1, j) <==> Shown(q, i, j)
  {
    forall j: nat ensures Shown(q, i + 1, j) <==> Shown(q, i, j) {
      ShownNext(q, i, j);
    }
    SameShown(q, i, i + 1, out);
  }

  lemma SameShown(q: Query, b: nat, c: nat, out: seq<Printed>)
    requires Prints(q, b, out) && forall j: nat :: Shown(q, b, j) <==> Shown(q, c, j)
    ensures Prints(q, c, out)
  {
    forall j: nat ensures Shown(q, c, j) ==> exists a :: 0 <= a < |out| && out[a].index == j {
      assert Shown(q, b, j) <==> Shown(q, c, j);
    }
  }

  /** Windows slide forward: what a match adds lies behind everything already out. */
  lemma NewLinesAreLater(q: Query, i: nat, earlier: nat, j: nat)
    requires Counts(q, i) && Shown(q, i, earlier) && InWindow(q, i, j) && !Shown(q, i, j)
    ensures earlier < j
  {
    var k: nat :| k < i && Counts(q, k) && InWindow(q, k, earlier);
    assert !InWindow(q, k, j);
  }

  lemma OneMoreMatch(q: Query, i: nat, out: seq<Printed>, block: seq<Printed>)
    requires Counts(q, i) && Prints(q, i, out) && NewOnes(q, i, |q.hits|, block)
    ensures Prints(q, i + 1, out + block)
    ensures block == [] ==> out + block == out
  {
    var all := out + block;
    forall a, b | 0 <= a < b < |all| ensures all[a].index < all[b].index {
      if a < |out| <= b {
        NewLinesAreLater(q, i, out[a].index, block[b - |out|].index);
      }
    }
    forall a | 0 <= a < |all|
      ensures Shown(q, i + 1, all[a].index) &&
              (all[a].colon <==> Counts(q, all[a].index) && !Shown(q, all[a].index, all[a].index))
    {
      ShownNext(q, i, all[a].index);
      if a >= |out| {
        ColonExactly(q, i, all[a].index);
      }
    }
    NothingLeftOut(q, i, out, block, i + 1);
  }

  lemma NothingLeftOut(q: Query, i: nat, out: seq<Printed>, block: seq<Printed>, next: nat)
    requires Counts(q, i) && Prints(q, i, out) && NewOnes(q, i, |q.hits|, block) && next == i + 1
    ensures forall j: nat :: Shown(q, next, j) ==> exists a :: 0 <= a < |out + block| && (out + block)[a].index == j
  {
    var all := out + block;
    forall j: nat ensures Shown(q, next, j) ==> exists a :: 0 <= a < |all| && all[a].index == j {
      ShownNext(q, i, j);
      if Shown(q, i, j) {
        var a :| 0 <= a < |out| && out[a].index == j;
        assert all[a].index == j;
      } else if InWindow(q, i, j) {
        var a :| 0 <= a < |block| && block[a].index == j;
        assert all[|out| + a].index == j;
      }
    }
  }

  /** Among the lines match `i` adds, only `i` itself is a match in its own right. */
  lemma ColonExactly(q: Query, i: nat, j: nat)
    requires Counts(q, i) && InWindow(q, i, j) && !Shown(q, i, j)
    ensures j == i <==> Counts(q, j) && !Shown(q, j, j)
  {
    if j < i && Counts(q, j) {
      assert InWindow(q, j, j);
      assert Shown(q, i, j);
    } else if j > i {
      assert Shown(q, j, j);
    }
  }

  /** Once the cap is passed, no later line counts. */
  lemma TheRestIsNotCounted(q: Query, i: nat, out: seq<Printed>)
    requires i < |q.hits| && q.hits[i] && CountHits(q.hits[..i]) == q.maxMatches && Prints(q, i, out)
    ensures Prints(q, |q.hits|, out)
    ensures CountHits(q.hits) > q.maxMatches
  {
    TakeOneMore(q.hits, i);
    CountIsMonotone(q.hits, i + 1, |q.hits|);
    assert q.hits[..|q.hits|] == q.hits;
    forall k: nat | i <= k < |q.hits| ensures !Counts(q, k) {
      CountIsMonotone(q.hits, i, k);
    }
    forall j: nat ensures Shown(q, |q.hits|, j) <==> Shown(q, i, j) {
    }
    SameShown(q, i, |q.hits|, out);
  }

  lemma {:induction false} HitsAreCounted(hits: seq<bool>, n: nat)
    requires n <= |hits|
    ensures CountHits(hits[..n]) == |set i: nat | i < n && hits[i]|
  {
    if n > 0 {
      var k := n - 1;
      HitsAreCounted(hits, k);
      TakeOneMore(hits, k);
      var before := set i: nat | i < k && hits[i];
      assert (set i: nat | i < n && hits[i]) == if hits[k] then before + {k} else before;
    }
  }

  /** The matches that count are the first `maxMatches` matching lines, or all. */
  lemma {:induction false} CountedAreFirst(q: Query, n: nat)
    requires n <= |q.hits|
    ensures |set i: nat | i < n && Counts(q, i)| == Min(CountHits(q.hits[..n]), q.maxMatches)
  {
    if n > 0 {
      var k := n - 1;
      CountedAreFirst(q, k);
      TakeOneMore(q.hits, k);
      var before := set i: nat | i < k && Counts(q, i);
      assert (set i: nat | i < n && Counts(q, i)) == if Counts(q, k) then before + {k} else before;
    }
  }

  lemma EarlierMatchesCount(q: Query, i: nat, j: nat)
    requires i < j && Counts(q, j) && q.hits[i]
    ensures Counts(q, i)
  {
    CountIsMonotone(q.hits, i, j);
  }

  /** A line is printed exactly when a counted match is at most `after` lines above it
      or `before` lines below it. */
  lemma PrintedExactly(q: Query, out: seq<Printed>, j: nat)
    requires Prints(q, |q.hits|, out)
    ensures (exists a :: 0 <= a < |out| && out[a].index == j) <==>
            j < |q.hits| && exists i: nat :: Counts(q, i) && j - i <= q.after && i - j <= q.before
  {
    if a :| 0 <= a < |out| && out[a].index == j {
      assert Shown(q, |q.hits|, j);
      var i: nat :| Counts(q, i) && InWindow(q, i, j);
      assert InWindow(q, i, j);
      assert j <= i + q.after;
      assert i - q.before <= j;
    }
    if j < |q.hits| {
      forall i: nat | Counts(q, i) && j - i <= q.after && i - j <= q.before ensures Shown(q, |q.hits|, j) {
        assert InWindow(q, i, j);
      }
    }
  }

  /** A matching line keeps `-` exactly when an earlier counted match reached it
      with its trailing context. */
  lemma DashedMatchExactly(q: Query, out: seq<Printed>, a: nat)
    requires Prints(q, |q.hits|, out) && a < |out| && Counts(q, out[a].index)
    ensures !out[a].colon <==>
            exists i: nat :: i < out[a].index && Counts(q, i) && out[a].index - i <= q.after
  {
    var j := out[a].index;
    if i: nat :| i < j && Counts(q, i) && j - i <= q.after {
      assert InWindow(q, i, j);
    }
  }
}
