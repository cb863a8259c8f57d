/** When the inliner refuses a schema as recursive
    (`src/salient_core/bus/_common.py:109-137`). */
module SchemaCycles {
  import opened Sequences
  import opened JsonSchema
  import opened SchemaInliner

  // ---- Reference chains, independently of the inliner ----

  /** The definitions that `node` refers to in places the inliner looks at. */
  ghost function Refs(node: Json): set<string>
    decreases node, 1
  {
    match node
    case Obj(m) =>
      if "$ref" in m then {RefName(m["$ref"])} + RefsEach(node, DROPPED_BESIDE_REF)
      else if HasPropertyMap(m) then RefsEach(node, DROPPED + {"properties"}) + RefsEach(m["properties"], {})
      else RefsEach(node, DROPPED)
    case Arr(items) => set i, r | 0 <= i < |items| && r in Refs(items[i]) :: r
    case Null => {}
    case Bool(_) => {}
    case Num(_) => {}
    case Str(_) => {}
  }

  ghost function RefsEach(node: Json, skip: set<string>): set<string>
    requires node.Obj?
    decreases node, 0
  {
    set k, r | k in node.fields && k !in skip && r in Refs(node.fields[k]) :: r
  }

  ghost function DefRefs(defs: Defs, d: string): set<string> {
    if d in defs then Refs(Obj(defs[d])) else {}
  }

  /** A chain of references: the first from `starts`, each next one inside the
      definition before it. */
  ghost predicate Chain(defs: Defs, starts: set<string>, c: seq<string>) {
    && c != [] && c[0] in starts
    && forall i | 0 <= i < |c| - 1 :: c[i + 1] in DefRefs(defs, c[i])
  }

  /** Some chain comes back to a definition on `stack` or to one of its own. */
  ghost predicate ComesBack(defs: Defs, starts: set<string>, stack: seq<string>) {
    exists c :: Returns(defs, starts, stack, c)
  }

  ghost predicate Returns(defs: Defs, starts: set<string>, stack: seq<string>, c: seq<string>) {
    Chain(defs, starts, c) && (Last(c) in stack || Last(c) in Front(c))
  }

  // ---- Proof ----

  lemma ComesBackFrom(defs: Defs, starts: set<string>, stack: seq<string>)
    ensures ComesBack(defs, starts, stack) <==> exists r :: r in starts && ComesBack(defs, {r}, stack)
  {
    if c :| Returns(defs, starts, stack, c) {
      assert Returns(defs, {c[0]}, stack, c);
    }
    if r :| r in starts && ComesBack(defs, {r}, stack) {
      var c :| Returns(defs, {r}, stack, c);
      assert Returns(defs, starts, stack, c);
    }
  }

  lemma ComesBackUnion(defs: Defs, a: set<string>, b: set<string>, stack: seq<string>)
    ensures ComesBack(defs, a + b, stack) <==> ComesBack(defs, a, stack) || ComesBack(defs, b, stack)
  {
    ComesBackFrom(defs, a + b, stack);
    ComesBackFrom(defs, a, stack);
    ComesBackFrom(defs, b, stack);
  }

  /** Following one reference. */
  lemma ComesBackStep(defs: Defs, ref: string, stack: seq<string>)
    requires ref !in stack
    ensures ComesBack(defs, {ref}, stack) <==> ComesBack(defs, DefRefs(defs, ref), stack + [ref])
  {
    if c :| Returns(defs, {ref}, stack, c) {
      var d := c[1..];
      assert |c| == 1 ==> c == [ref];
      forall i | 0 <= i < |d| - 1 ensures d[i + 1] in DefRefs(defs, d[i]) {
        assert c[i + 2] in DefRefs(defs, c[i + 1]);
      }
      assert Last(d) in stack + [ref] || Last(d) in Front(d) by {
        if Last(c) in Front(c) {
          var i :| 0 <= i < |Front(c)| && Front(c)[i] == Last(c);
          if i > 0 { assert Front(d)[i - 1] == Last(d); }
        }
      }
      assert Returns(defs, DefRefs(defs, ref), stack + [ref], d);
    }
    if d :| Returns(defs, DefRefs(defs, ref), stack + [ref], d) {
      var c := [ref] + d;
      forall i | 0 <= i < |c| - 1 ensures c[i + 1] in DefRefs(defs, c[i]) {
        if i > 0 { assert d[i] in DefRefs(defs, d[i - 1]); }
      }
      assert Last(c) in stack || Last(c) in Front(c) by {
        if Last(d) in Front(d) {
          var i :| 0 <= i < |Front(d)| && Front(d)[i] == Last(d);
          assert Front(c)[i + 1] == Last(c);
        } else if Last(d) == ref {
          assert Front(c)[0] == ref;
        }
      }
      assert Returns(defs, {ref}, stack, c);
    }
  }

  lemma OnStackComesBack(defs: Defs, ref: string, stack: seq<string>)
    requires ref in stack
    ensures ComesBack(defs, {ref}, stack)
  {
    assert Returns(defs, {ref}, stack, [ref]);
  }

  /** The inliner refuses a subtree exactly when some chain from it comes back. */
  lemma {:induction false} RefusesExactly(defs: Defs, node: Json, stack: seq<string>)
    ensures Resolve(defs, node, stack).Cycle? <==> ComesBack(defs, Refs(node), stack)
    decreases Unfollowed(defs, stack), node, 1
  {
    match node {
      case Obj(m) =>
        if "$ref" in m {
          var ref := RefName(m["$ref"]);
          ComesBackUnion(defs, {ref}, RefsEach(node, DROPPED_BESIDE_REF), stack);
          RefusesEachExactly(defs, node, DROPPED_BESIDE_REF, stack);
          if ref in stack {
            OnStackComesBack(defs, ref, stack);
          } else {
            ComesBackStep(defs, ref, stack);
            if ref in defs {
              FollowingShrinks(defs, stack, ref);
              RefusesExactly(defs, Obj(defs[ref]), stack + [ref]);
            }
          }
        } else if HasPropertyMap(m) {
          ComesBackUnion(defs, RefsEach(node, DROPPED + {"properties"}), RefsEach(m["properties"], {}), stack);
          RefusesEachExactly(defs, node, DROPPED + {"properties"}, stack);
          RefusesEachExactly(defs, m["properties"], {}, stack);
        } else {
          RefusesEachExactly(defs, node, DROPPED, stack);
        }
      case Arr(items) =>
        ComesBackFrom(defs, Refs(node), stack);
        forall i | 0 <= i < |items|
          ensures Resolve(defs, items[i], stack).Cycle? <==>
                  exists r :: r in Refs(items[i]) && ComesBack(defs, {r}, stack)
        {
          RefusesExactly(defs, items[i], stack);
          ComesBackFrom(defs, Refs(items[i]), stack);
        }
      case Null =>
      case Bool(_) =>
      case Num(_) =>
      case Str(_) =>
    }
  }

  lemma {:induction false} RefusesEachExactly(defs: Defs, node: Json, skip: set<string>, stack: seq<string>)
    requires node.Obj?
    ensures ResolveEach(defs, node, skip, stack).Cycle? <==> ComesBack(defs, RefsEach(node, skip), stack)
    decreases Unfollowed(defs, stack), node, 0
  {
    var m := node.fields;
    ComesBackFrom(defs, RefsEach(node, skip), stack);
    forall k | k in m && k !in skip
      ensures Resolve(defs, m[k], stack).Cycle? <==>
              exists r :: r in Refs(m[k]) && ComesBack(defs, {r}, stack)
    {
      RefusesExactly(defs, m[k], stack);
      ComesBackFrom(defs, Refs(m[k]), stack);
    }
  }

  /** A chain of references that starts in the schema names some definition twice. */
  ghost predicate NamesTwice(defs: Defs, schema: Json) {
    exists c, i, j :: Chain(defs, Refs(schema), c) && 0 <= i < j < |c| && c[i] == c[j]
  }

  /** Exactly then the schema is refused as recursive. */
  lemma RecursiveExactly(defs: Defs, schema: Json)
    ensures Resolve(defs, schema, []).Cycle? <==> NamesTwice(defs, schema)
  {
    RefusesExactly(defs, schema, []);
    if ComesBack(defs, Refs(schema), []) {
      var c :| Returns(defs, Refs(schema), [], c);
      var i :| 0 <= i < |Front(c)| && Front(c)[i] == Last(c);
      assert c[i] == c[|c| - 1];
    }
    if c, i, j :| Chain(defs, Refs(schema), c) && 0 <= i < j < |c| && c[i] == c[j] {
      var d := c[..j + 1];
      forall k | 0 <= k < |d| - 1 ensures d[k + 1] in DefRefs(defs, d[k]) {
        assert c[k + 1] in DefRefs(defs, c[k]);
      }
      assert Front(d)[i] == Last(d);
      assert Returns(defs, Refs(schema), [], d);
    }
  }
}
