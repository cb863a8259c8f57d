/** A cleaned schema accepts exactly the instances the original accepts
    (`src/salient_core/bus/_common.py:88-146`). */
module SchemaMeaning {
  import opened JsonSchema
  import opened SchemaInliner

  // ---- The schemas the guarantee covers ----

  predicate NoObjects(v: Json) {
    match v
    case Obj(_) => false
    case Arr(items) => forall i | 0 <= i < |items| :: NoObjects(items[i])
    case Null => true
    case Bool(_) => true
    case Num(_) => true
    case Str(_) => true
  }

  /** Field names that get lost or misread when `properties` stands beside a
      `$ref`, where it is cleaned like a schema. */
  const FIELD_TRAPS: set<string> := {"$ref", "$defs", "title", "default", "properties"}

  /** Keywords whose presence changes what `items` or `additionalProperties` covers. */
  const NEIGHBOURS: set<string> := {"prefixItems", "patternProperties"}

  /** References resolve, the keywords beside a `$ref` do not clash with those of
      its target, and the data of plain keywords (`enum`, `const`, `required`,
      ...) holds no objects. */
  ghost predicate Supported(defs: Defs, node: Json, stack: seq<string>)
    decreases Unfollowed(defs, stack), node, 1
  {
    match node
    case Obj(m) => forall k | k in m :: SupportedKeyword(defs, node, k, stack)
    case Null => true
    case Bool(_) => true
    case Num(_) => true
    case Str(_) => true
    case Arr(_) => true
  }

  ghost predicate SupportedKeyword(defs: Defs, node: Json, k: string, stack: seq<string>)
    requires node.Obj? && k in node.fields
    decreases Unfollowed(defs, stack), node, 0
  {
    var v := node.fields[k];
    if k == "$ref" then
      var ref := RefName(v);
      if ref in defs && ref !in stack then
        assert Unfollowed(defs, stack + [ref]) < Unfollowed(defs, stack) by { FollowingShrinks(defs, stack, ref); }
        && Supported(defs, Obj(defs[ref]), stack + [ref])
        && NoClash(Resolve(defs, Obj(defs[ref]), stack + [ref]), node.fields)
      else false
    else if k in ANNOTATIONS then true
    else if k == "properties" then
      && v.Obj?
      && (forall p | p in v.fields :: Supported(defs, v.fields[p], stack))
      && ("$ref" in node.fields ==> forall p | p in v.fields :: p !in FIELD_TRAPS)
    else if k in {"additionalProperties", "items", "not"} then Supported(defs, v, stack)
    else if k in {"allOf", "anyOf", "oneOf"} then
      v.Arr? && forall i | 0 <= i < |v.items| :: Supported(defs, v.items[i], stack)
    else k !in NEIGHBOURS && NoObjects(v)
  }

  /** No keyword that can reject an instance stands on both sides, and
      `additionalProperties` does not meet the other side's `properties`. */
  predicate NoClash(target: Outcome, siblings: map<string, Json>) {
    target.Clean? && target.value.Obj? ==>
      var t := target.value.fields;
      && (forall k | k in t && k in siblings :: k in ANNOTATIONS)
      && ("additionalProperties" in t ==> "properties" !in siblings)
      && ("properties" in t ==> "additionalProperties" !in siblings)
  }

  // ---- Plain data is left alone ----

  lemma {:induction false} DataUnchanged(defs: Defs, v: Json, stack: seq<string>)
    requires NoObjects(v)
    ensures Resolve(defs, v, stack) == Clean(v)
  {
    match v {
      case Arr(items) =>
        forall i | 0 <= i < |items| ensures Resolve(defs, items[i], stack) == Clean(items[i]) {
          DataUnchanged(defs, items[i], stack);
        }
        assert Resolve(defs, v, stack).value.items == items;
      case Obj(_) =>
      case Null =>
      case Bool(_) =>
      case Num(_) =>
      case Str(_) =>
    }
  }

  // ---- Meaning is preserved ----

  /** The cleaned subtree means what the subtree meant, for every instance. */
  ghost predicate SameMeaning(defs: Defs, holds: Assertion, node: Json, stack: seq<string>, cleaned: Json) {
    forall inst :: Valid(defs, holds, node, stack, inst) <==> Valid(map[], holds, cleaned, [], inst)
  }

  /** As `SameMeaning`, for one keyword of a schema object. */
  ghost predicate SameKeyword(defs: Defs, holds: Assertion, node: Json, k: string, stack: seq<string>, cleaned: Json)
    requires node.Obj? && k in node.fields
    requires cleaned.Obj? && k in cleaned.fields
  {
    forall inst :: Keyword(defs, holds, node, k, stack, inst) <==> Keyword(map[], holds, cleaned, k, [], inst)
  }

  lemma {:induction false} MeaningKept(defs: Defs, holds: Assertion, node: Json, stack: seq<string>)
    requires Supported(defs, node, stack)
    requires Resolve(defs, node, stack).Clean?
    ensures SameMeaning(defs, holds, node, stack, Resolve(defs, node, stack).value)
    decreases Unfollowed(defs, stack), node, 1
  {
    if node.Obj? {
      if "$ref" in node.fields {
        ReferenceKept(defs, holds, node, stack);
      } else {
        ObjectKept(defs, holds, node, stack);
      }
    }
  }

  lemma ObjectKept(defs: Defs, holds: Assertion, node: Json, stack: seq<string>)
    requires node.Obj? && "$ref" !in node.fields
    requires Supported(defs, node, stack)
    requires Resolve(defs, node, stack).Clean?
    ensures SameMeaning(defs, holds, node, stack, Resolve(defs, node, stack).value)
    decreases Unfollowed(defs, stack), node, 0
  {
    var m := node.fields;
    var cleaned := Resolve(defs, node, stack).value;
    assert cleaned.fields.Keys == m.Keys - DROPPED;
    forall k | k in cleaned.fields ensures SameKeyword(defs, holds, node, k, stack, cleaned) {
      assert SupportedKeyword(defs, node, k, stack);
      KeywordKept(defs, holds, node, k, stack, cleaned);
    }
    forall inst ensures Valid(defs, holds, node, stack, inst) <==> Valid(map[], holds, cleaned, [], inst) {
      forall k | k in m ensures
          if k in cleaned.fields then
            Keyword(defs, holds, node, k, stack, inst) <==> Keyword(map[], holds, cleaned, k, [], inst)
          else Keyword(defs, holds, node, k, stack, inst)
      {
      }
    }
  }

  /** `cleaned` holds, under `k`, what the inliner makes of the keyword. */
  ghost predicate HoldsCleaned(defs: Defs, node: Json, k: string, stack: seq<string>, cleaned: Json)
    requires node.Obj? && k in node.fields
  {
    && cleaned.Obj? && k in cleaned.fields
    && (k == "additionalProperties" ==> Declared(cleaned.fields) == Declared(node.fields))
    && var v := node.fields[k];
       if k == "properties" && v.Obj? then
         ResolveEach(defs, v, {}, stack) == Clean(cleaned.fields[k])
       else
         Resolve(defs, v, stack) == Clean(cleaned.fields[k])
  }

  lemma KeywordKept(defs: Defs, holds: Assertion, node: Json, k: string, stack: seq<string>, cleaned: Json)
    requires node.Obj? && k in node.fields && k != "$ref"
    requires SupportedKeyword(defs, node, k, stack)
    requires HoldsCleaned(defs, node, k, stack, cleaned)
    ensures SameKeyword(defs, holds, node, k, stack, cleaned)
    decreases Unfollowed(defs, stack), node.fields[k], 2
  {
    var v, w := node.fields[k], cleaned.fields[k];
    if k in ANNOTATIONS {
    } else if k == "properties" {
      forall p | p in v.fields ensures SameMeaning(defs, holds, v.fields[p], stack, w.fields[p]) {
        MeaningKept(defs, holds, v.fields[p], stack);
      }
      PropertiesKept(defs, holds, node, stack, cleaned);
    } else if k in {"additionalProperties", "items", "not"} {
      MeaningKept(defs, holds, v, stack);
      SubschemaKept(defs, holds, node, k, stack, cleaned);
    } else if k in {"allOf", "anyOf", "oneOf"} {
      forall i | 0 <= i < |v.items| ensures SameMeaning(defs, holds, v.items[i], stack, w.items[i]) {
        MeaningKept(defs, holds, v.items[i], stack);
      }
      CombinationKept(defs, holds, node, k, stack, cleaned);
    } else {
      DataUnchanged(defs, v, stack);
    }
  }

  lemma PropertiesKept(defs: Defs, holds: Assertion, node: Json, stack: seq<string>, cleaned: Json)
    requires node.Obj? && "properties" in node.fields && cleaned.Obj? && "properties" in cleaned.fields
    requires node.fields["properties"].Obj? && cleaned.fields["properties"].Obj?
    requires node.fields["properties"].fields.Keys == cleaned.fields["properties"].fields.Keys
    requires forall p | p in node.fields["properties"].fields ::
               SameMeaning(defs, holds, node.fields["properties"].fields[p], stack, cleaned.fields["properties"].fields[p])
    ensures SameKeyword(defs, holds, node, "properties", stack, cleaned)
  {
    var v, w := node.fields["properties"].fields, cleaned.fields["properties"].fields;
    forall inst
      ensures Keyword(defs, holds, node, "properties", stack, inst)
         <==> Keyword(map[], holds, cleaned, "properties", [], inst)
    {
      if inst.Obj? {
        forall p | p in v && p in inst.fields
          ensures Valid(defs, holds, v[p], stack, inst.fields[p]) <==> Valid(map[], holds, w[p], [], inst.fields[p])
        {
          assert SameMeaning(defs, holds, v[p], stack, w[p]);
        }
      }
    }
  }

  lemma SubschemaKept(defs: Defs, holds: Assertion, node: Json, k: string, stack: seq<string>, cleaned: Json)
    requires k in {"additionalProperties", "items", "not"}
    requires node.Obj? && k in node.fields && cleaned.Obj? && k in cleaned.fields
    requires k == "additionalProperties" ==> Declared(cleaned.fields) == Declared(node.fields)
    requires SameMeaning(defs, holds, node.fields[k], stack, cleaned.fields[k])
    ensures SameKeyword(defs, holds, node, k, stack, cleaned)
  {
  }

  lemma CombinationKept(defs: Defs, holds: Assertion, node: Json, k: string, stack: seq<string>, cleaned: Json)
    requires k in {"allOf", "anyOf", "oneOf"}
    requires node.Obj? && k in node.fields && cleaned.Obj? && k in cleaned.fields
    requires node.fields[k].Arr? && cleaned.fields[k].Arr?
    requires |node.fields[k].items| == |cleaned.fields[k].items|
    requires forall i | 0 <= i < |node.fields[k].items| ::
               SameMeaning(defs, holds, node.fields[k].items[i], stack, cleaned.fields[k].items[i])
    ensures SameKeyword(defs, holds, node, k, stack, cleaned)
  {
    var v, w := node.fields[k].items, cleaned.fields[k].items;
    forall inst
      ensures Keyword(defs, holds, node, k, stack, inst) <==> Keyword(map[], holds, cleaned, k, [], inst)
    {
      var before := seq(|v|, i requires 0 <= i < |v| => Valid(defs, holds, v[i], stack, inst));
      var after := seq(|w|, i requires 0 <= i < |w| => Valid(map[], holds, w[i], [], inst));
      forall i | 0 <= i < |v| ensures before[i] == after[i] {
        assert SameMeaning(defs, holds, v[i], stack, w[i]);
      }
      assert before == after;
    }
  }

  // ---- References: the target and the keywords beside it are merged ----

  /** Away from the traps, `properties` is cleaned field by field even beside a `$ref`. */
  lemma TrapFreeProperties(defs: Defs, v: Json, stack: seq<string>)
    requires v.Obj? && forall p | p in v.fields :: p !in FIELD_TRAPS
    ensures Resolve(defs, v, stack) == ResolveEach(defs, v, {}, stack)
  {
    assert forall p | p in v.fields :: p !in DROPPED;
  }

  /** A keyword of the target keeps its meaning when the siblings join it. */
  lemma TargetKeywordKept(holds: Assertion, t: map<string, Json>, s: map<string, Json>, k: string, inst: Json)
    requires k in t && k !in s
    requires k == "additionalProperties" ==> "properties" !in s
    ensures Keyword(map[], holds, Obj(t), k, [], inst) <==> Keyword(map[], holds, Obj(t + s), k, [], inst)
  {
    assert (t + s)[k] == t[k];
    if k == "additionalProperties" {
      assert Declared(t + s) == Declared(t);
    }
  }

  /** A merged object is satisfied when the target is, and the siblings are as they
      stand in the merged object. */
  lemma MergedBySides(holds: Assertion, t: map<string, Json>, s: map<string, Json>, inst: Json)
    requires forall k | k in t && k in s :: k in ANNOTATIONS
    requires "additionalProperties" in t ==> "properties" !in s
    ensures Valid(map[], holds, Obj(t + s), [], inst) <==>
            Valid(map[], holds, Obj(t), [], inst) && forall k | k in s :: Keyword(map[], holds, Obj(t + s), k, [], inst)
  {
    forall k | k in t && k !in s
      ensures Keyword(map[], holds, Obj(t), k, [], inst) <==> Keyword(map[], holds, Obj(t + s), k, [], inst)
    {
      TargetKeywordKept(holds, t, s, k, inst);
    }
    forall k | k in t && k in s ensures Keyword(map[], holds, Obj(t), k, [], inst) {
      assert k in ANNOTATIONS;
    }
  }

  /** A node beside whose `$ref` stand the keywords of `s`. */
  lemma NodeBySides(defs: Defs, holds: Assertion, node: Json, stack: seq<string>, s: set<string>, inst: Json)
    requires node.Obj? && "$ref" in node.fields && s == node.fields.Keys - DROPPED_BESIDE_REF
    ensures Valid(defs, holds, node, stack, inst) <==>
            Keyword(defs, holds, node, "$ref", stack, inst) && forall k | k in s :: Keyword(defs, holds, node, k, stack, inst)
  {
    forall k | k in node.fields && k !in s && k != "$ref" ensures Keyword(defs, holds, node, k, stack, inst) {
      assert k == "title";
    }
  }

  lemma MergedMeaning(defs: Defs, holds: Assertion, node: Json, stack: seq<string>,
                      t: map<string, Json>, s: map<string, Json>, inst: Json)
    requires node.Obj? && "$ref" in node.fields
    requires s.Keys == node.fields.Keys - DROPPED_BESIDE_REF
    requires NoClash(Clean(Obj(t)), node.fields)
    requires Keyword(defs, holds, node, "$ref", stack, inst) <==> Valid(map[], holds, Obj(t), [], inst)
    requires forall k | k in s :: SameKeyword(defs, holds, node, k, stack, Obj(t + s))
    ensures Valid(defs, holds, node, stack, inst) <==> Valid(map[], holds, Obj(t + s), [], inst)
  {
    MergedBySides(holds, t, s, inst);
    NodeBySides(defs, holds, node, stack, s.Keys, inst);
    forall k | k in s
      ensures Keyword(defs, holds, node, k, stack, inst) <==> Keyword(map[], holds, Obj(t + s), k, [], inst)
    {
      assert SameKeyword(defs, holds, node, k, stack, Obj(t + s));
    }
  }

  /** What the siblings declare is what the node declared. */
  lemma DeclaredKept(defs: Defs, m: map<string, Json>, stack: seq<string>, t: map<string, Json>, s: map<string, Json>)
    requires ResolveEach(defs, Obj(m), DROPPED_BESIDE_REF, stack) == Clean(Obj(s))
    requires "properties" in m ==> m["properties"].Obj? && forall p | p in m["properties"].fields :: p !in FIELD_TRAPS
    requires "additionalProperties" in m ==> "properties" !in t
    ensures "additionalProperties" in m ==> Declared(t + s) == Declared(m)
  {
    if "properties" in m {
      TrapFreeProperties(defs, m["properties"], stack);
      assert Resolve(defs, m["properties"], stack) == Clean(s["properties"]);
    }
  }

  lemma SiblingCleaned(defs: Defs, node: Json, k: string, stack: seq<string>, t: map<string, Json>, s: map<string, Json>)
    requires node.Obj? && k in s
    requires ResolveEach(defs, node, DROPPED_BESIDE_REF, stack) == Clean(Obj(s))
    requires k == "properties" ==>
               node.fields[k].Obj? && forall p | p in node.fields[k].fields :: p !in FIELD_TRAPS
    requires k == "additionalProperties" ==> Declared(t + s) == Declared(node.fields)
    ensures HoldsCleaned(defs, node, k, stack, Obj(t + s))
  {
    if k == "properties" {
      TrapFreeProperties(defs, node.fields[k], stack);
    }
    assert Resolve(defs, node.fields[k], stack) == Clean(s[k]);
    assert (t + s)[k] == s[k];
  }

  lemma NoTraps(defs: Defs, node: Json, stack: seq<string>)
    requires node.Obj? && "$ref" in node.fields && Supported(defs, node, stack)
    ensures "properties" in node.fields ==>
              && node.fields["properties"].Obj?
              && forall p | p in node.fields["properties"].fields :: p !in FIELD_TRAPS
  {
    if "properties" in node.fields {
      assert SupportedKeyword(defs, node, "properties", stack);
    }
  }

  lemma ReferenceKept(defs: Defs, holds: Assertion, node: Json, stack: seq<string>)
    requires node.Obj? && "$ref" in node.fields
    requires Supported(defs, node, stack)
    requires Resolve(defs, node, stack).Clean?
    ensures SameMeaning(defs, holds, node, stack, Resolve(defs, node, stack).value)
    decreases Unfollowed(defs, stack), node, 0
  {
    var m := node.fields;
    var ref := RefName(m["$ref"]);
    assert SupportedKeyword(defs, node, "$ref", stack);
    FollowingShrinks(defs, stack, ref);
    MeaningKept(defs, holds, Obj(defs[ref]), stack + [ref]);
    var t := Resolve(defs, Obj(defs[ref]), stack + [ref]).value.fields;
    var s := ResolveEach(defs, node, DROPPED_BESIDE_REF, stack).value.fields;
    NoTraps(defs, node, stack);
    DeclaredKept(defs, m, stack, t, s);
    forall k | k in s ensures SameKeyword(defs, holds, node, k, stack, Obj(t + s)) {
      assert SupportedKeyword(defs, node, k, stack);
      SiblingCleaned(defs, node, k, stack, t, s);
      KeywordKept(defs, holds, node, k, stack, Obj(t + s));
    }
    forall inst ensures Valid(defs, holds, node, stack, inst) <==> Valid(map[], holds, Obj(t + s), [], inst) {
      MergedMeaning(defs, holds, node, stack, t, s, inst);
    }
  }

  // ---- The main result ----

  /** What the cleaned schema accepts no longer depends on any definition, and is
      what the original accepts, for every reading of the plain keywords. */
  lemma CleaningPreservesMeaning(defs: Defs, holds: Assertion, schema: Json, inst: Json)
    requires Supported(defs, schema, []) && Resolve(defs, schema, []).Clean?
    ensures Valid(defs, holds, schema, [], inst) <==> Valid(map[], holds, Resolve(defs, schema, []).value, [], inst)
  {
    MeaningKept(defs, holds, schema, []);
  }

  // ---- What is lost when keywords clash ----

  /** Keywords judged by their own value alone. */
  predicate Plain(k: string) {
    k !in ANNOTATIONS + {"$ref", "properties", "additionalProperties", "items", "not", "allOf", "anyOf", "oneOf"}
  }

  lemma OneKeyword(defs: Defs, holds: Assertion, k: string, v: Json, stack: seq<string>, inst: Json)
    requires Plain(k) && NoObjects(v)
    ensures Resolve(defs, Obj(map[k := v]), stack) == Clean(Obj(map[k := v]))
    ensures Valid(defs, holds, Obj(map[k := v]), stack, inst) <==> holds(k, v, inst)
  {
    DataUnchanged(defs, v, stack);
    assert Keyword(defs, holds, Obj(map[k := v]), k, stack, inst) <==> holds(k, v, inst);
    var r := ResolveEach(defs, Obj(map[k := v]), DROPPED, stack);
    assert r.Clean?;
    assert r.value.fields == map[k := v];
  }

  lemma ClashBefore(defs: Defs, holds: Assertion, k: string, v: Json, w: Json, inst: Json)
    requires Plain(k) && NoObjects(v) && NoObjects(w) && defs == map["A" := map[k := w]]
    ensures Valid(defs, holds, Obj(map["$ref" := Str("A"), k := v]), [], inst) <==>
            holds(k, v, inst) && holds(k, w, inst)
  {
    var schema := Obj(map["$ref" := Str("A"), k := v]);
    assert RefName(Str("A")) == "A" && [] + ["A"] == ["A"];
    OneKeyword(defs, holds, k, w, ["A"], inst);
    assert Keyword(defs, holds, schema, "$ref", [], inst) <==> Valid(defs, holds, Obj(defs["A"]), ["A"], inst);
    assert Keyword(defs, holds, schema, k, [], inst) <==> holds(k, v, inst);
  }

  lemma ClashAfter(defs: Defs, k: string, v: Json, w: Json)
    requires Plain(k) && NoObjects(v) && NoObjects(w) && defs == map["A" := map[k := w]]
    ensures Resolve(defs, Obj(map["$ref" := Str("A"), k := v]), []) == Clean(Obj(map[k := v]))
  {
    var schema := Obj(map["$ref" := Str("A"), k := v]);
    assert RefName(Str("A")) == "A" && [] + ["A"] == ["A"];
    DataUnchanged(defs, v, []);
    OneKeyword(defs, (_, _, _) => true, k, w, ["A"], Null);
    var siblings := ResolveEach(defs, schema, DROPPED_BESIDE_REF, []);
    assert siblings.Clean? && siblings.value.fields == map[k := v];
    assert map[k := w] + map[k := v] == map[k := v];
  }

  /** One clash: target and node both carry the plain keyword `k`. The target's value
      `w` is lost, and the verdict on an instance is kept exactly when the node's `v`
      implies it. */
  lemma OneClash(defs: Defs, holds: Assertion, k: string, v: Json, w: Json, inst: Json)
    requires Plain(k) && NoObjects(v) && NoObjects(w) && defs == map["A" := map[k := w]]
    ensures var schema := Obj(map["$ref" := Str("A"), k := v]);
      && Resolve(defs, schema, []).Clean?
      && ((Valid(defs, holds, schema, [], inst) <==> Valid(map[], holds, Resolve(defs, schema, []).value, [], inst))
          <==> (holds(k, v, inst) ==> holds(k, w, inst)))
  {
    ClashBefore(defs, holds, k, v, w, inst);
    ClashAfter(defs, k, v, w);
    OneKeyword(map[], holds, k, v, [], inst);
  }

  // ---- Clashes in general ----

  const REST := "additionalProperties"

  /** The keyword `k` with value `v`, standing alone. */
  ghost predicate Alone(holds: Assertion, k: string, v: Json, inst: Json) {
    Keyword(map[], holds, Obj(map[k := v]), k, [], inst)
  }

  /** `additionalProperties` with value `v`, where `declared` are the declared names. */
  ghost predicate RestHolds(holds: Assertion, v: Json, declared: set<string>, inst: Json) {
    inst.Obj? ==> forall p | p in inst.fields && p !in declared :: Valid(map[], holds, v, [], inst.fields[p])
  }

  ghost predicate RestOf(holds: Assertion, m: map<string, Json>, inst: Json) {
    REST in m ==> RestHolds(holds, m[REST], Declared(m), inst)
  }

  /** Every keyword but `additionalProperties` means the same wherever it stands. */
  lemma StandsAlone(holds: Assertion, m: map<string, Json>, k: string, inst: Json)
    requires k in m
    ensures k != REST ==> (Keyword(map[], holds, Obj(m), k, [], inst) <==> Alone(holds, k, m[k], inst))
    ensures k == REST ==> (Keyword(map[], holds, Obj(m), k, [], inst) <==> RestHolds(holds, m[k], Declared(m), inst))
  {
  }

  lemma ValidByKeywords(holds: Assertion, m: map<string, Json>, inst: Json)
    ensures Valid(map[], holds, Obj(m), [], inst) <==>
            (forall k | k in m && k != REST :: Alone(holds, k, m[k], inst)) && RestOf(holds, m, inst)
  {
    forall k | k in m
      ensures Keyword(map[], holds, Obj(m), k, [], inst) <==>
              if k == REST then RestHolds(holds, m[k], Declared(m), inst) else Alone(holds, k, m[k], inst)
    {
      StandsAlone(holds, m, k, inst);
    }
  }

  /** What survives a merge as it was: the siblings, and the target's keywords that no
      sibling overwrites. */
  ghost predicate Surviving(holds: Assertion, t: map<string, Json>, s: map<string, Json>, inst: Json) {
    && (forall k | k in t && k !in s && k != REST :: Alone(holds, k, t[k], inst))
    && (forall k | k in s && k != REST :: Alone(holds, k, s[k], inst))
  }

  /** What the merge throws away. */
  ghost predicate Overwritten(holds: Assertion, t: map<string, Json>, s: map<string, Json>, inst: Json) {
    forall k | k in t && k in s && k != REST :: Alone(holds, k, t[k], inst)
  }

  lemma MergedExactly(holds: Assertion, t: map<string, Json>, s: map<string, Json>, inst: Json)
    ensures Valid(map[], holds, Obj(t + s), [], inst) <==> Surviving(holds, t, s, inst) && RestOf(holds, t + s, inst)
  {
    ValidByKeywords(holds, t + s, inst);
    forall k | k in t + s ensures (t + s)[k] == if k in s then s[k] else t[k] {
    }
  }

  lemma BothExactly(holds: Assertion, t: map<string, Json>, s: map<string, Json>, inst: Json)
    ensures Valid(map[], holds, Obj(t), [], inst) && Valid(map[], holds, Obj(s), [], inst) <==>
            && Surviving(holds, t, s, inst) && Overwritten(holds, t, s, inst)
            && RestOf(holds, t, inst) && RestOf(holds, s, inst)
  {
    ValidByKeywords(holds, t, inst);
    ValidByKeywords(holds, s, inst);
  }

  /** The meaning of a reference with keywords beside it is the conjunction of the
      cleaned target `t` and the cleaned siblings `s`, each on its own; what the
      inliner makes of it is `t + s`. */
  lemma ReferenceMeansBoth(defs: Defs, holds: Assertion, node: Json, stack: seq<string>, inst: Json)
    returns (t: map<string, Json>, s: map<string, Json>)
    requires node.Obj? && "$ref" in node.fields && Resolve(defs, node, stack).Clean?
    requires var ref := RefName(node.fields["$ref"]);
      ref in defs && ref !in stack && Supported(defs, Obj(defs[ref]), stack + [ref])
    requires forall k | k in node.fields && k != "$ref" :: SupportedKeyword(defs, node, k, stack)
    ensures Resolve(defs, Obj(defs[RefName(node.fields["$ref"])]), stack + [RefName(node.fields["$ref"])]) == Clean(Obj(t))
    ensures ResolveEach(defs, node, DROPPED_BESIDE_REF, stack) == Clean(Obj(s))
    ensures Resolve(defs, node, stack) == Clean(Obj(t + s))
    ensures Valid(defs, holds, node, stack, inst) <==>
            Valid(map[], holds, Obj(t), [], inst) && Valid(map[], holds, Obj(s), [], inst)
  {
    var m := node.fields;
    var ref := RefName(m["$ref"]);
    FollowingShrinks(defs, stack, ref);
    MeaningKept(defs, holds, Obj(defs[ref]), stack + [ref]);
    t := Resolve(defs, Obj(defs[ref]), stack + [ref]).value.fields;
    s := ResolveEach(defs, node, DROPPED_BESIDE_REF, stack).value.fields;
    SiblingsAlone(defs, holds, node, stack, s, inst);
    NodeBySides(defs, holds, node, stack, s.Keys, inst);
  }

  lemma SiblingsAlone(defs: Defs, holds: Assertion, node: Json, stack: seq<string>, s: map<string, Json>, inst: Json)
    requires node.Obj? && "$ref" in node.fields
    requires ResolveEach(defs, node, DROPPED_BESIDE_REF, stack) == Clean(Obj(s))
    requires forall k | k in node.fields && k != "$ref" :: SupportedKeyword(defs, node, k, stack)
    ensures (forall k | k in s :: Keyword(defs, holds, node, k, stack, inst)) <==> Valid(map[], holds, Obj(s), [], inst)
  {
    assert map[] + s == s;
    DeclaredKept(defs, node.fields, stack, map[], s);
    forall k | k in s ensures SameKeyword(defs, holds, node, k, stack, Obj(s)) {
      SiblingCleaned(defs, node, k, stack, map[], s);
      KeywordKept(defs, holds, node, k, stack, Obj(s));
    }
    forall k | k in s
      ensures Keyword(defs, holds, node, k, stack, inst) <==> Keyword(map[], holds, Obj(s), k, [], inst)
    {
      assert SameKeyword(defs, holds, node, k, stack, Obj(s));
    }
  }

  /** Whatever keywords clash, the verdict on an instance is kept exactly when, given
      everything that survives the merge, the merged `additionalProperties` says what
      the overwritten keywords and the two separate ones said: with none of those,
      exactly when the surviving keywords imply the overwritten ones. */
  lemma ClashExactly(defs: Defs, holds: Assertion, node: Json, stack: seq<string>, inst: Json)
    returns (t: map<string, Json>, s: map<string, Json>)
    requires node.Obj? && "$ref" in node.fields && Resolve(defs, node, stack).Clean?
    requires var ref := RefName(node.fields["$ref"]);
      ref in defs && ref !in stack && Supported(defs, Obj(defs[ref]), stack + [ref])
    requires forall k | k in node.fields && k != "$ref" :: SupportedKeyword(defs, node, k, stack)
    ensures Resolve(defs, Obj(defs[RefName(node.fields["$ref"])]), stack + [RefName(node.fields["$ref"])]) == Clean(Obj(t))
    ensures ResolveEach(defs, node, DROPPED_BESIDE_REF, stack) == Clean(Obj(s))
    ensures (Valid(defs, holds, node, stack, inst) <==> Valid(map[], holds, Resolve(defs, node, stack).value, [], inst))
            <==> (Surviving(holds, t, s, inst) ==>
                    (RestOf(holds, t + s, inst) <==>
                     Overwritten(holds, t, s, inst) && RestOf(holds, t, inst) && RestOf(holds, s, inst)))
    ensures REST !in t && REST !in s ==>
              ((Valid(defs, holds, node, stack, inst) <==> Valid(map[], holds, Resolve(defs, node, stack).value, [], inst))
               <==> (Surviving(holds, t, s, inst) ==> Overwritten(holds, t, s, inst)))
  {
    t, s := ReferenceMeansBoth(defs, holds, node, stack, inst);
    MergedExactly(holds, t, s, inst);
    BothExactly(holds, t, s, inst);
  }
}
