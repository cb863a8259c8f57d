/** The whole of `_clean_tool_schema` in `src/salient_core/bus/_common.py:88-146`:
    inline, then refuse a result that still mentions references. */
module ToolSchema {
  import opened JsonSchema
  import opened SchemaInliner
  import opened SchemaCycles
  import opened SchemaMeaning

  datatype Result = Cleaned(schema: Json) | Recursive | Leftover

  // ---- The closing check ----

  /** `word` occurs in `s`. */
  predicate Within(word: string, s: string) {
    word <= s || (s != [] && Within(word, s[1..]))
  }

  predicate Marked(s: string) {
    Within("$ref", s) || Within("$defs", s)
  }

  /** The text of `v` mentions `$ref` or `$defs`. Neither word contains a character
      that the encoder escapes, so looking at keys and strings is enough. */
  predicate Mentions(v: Json) {
    match v
    case Obj(m) => exists k :: k in m && (Marked(k) || Mentions(m[k]))
    case Arr(items) => exists i :: 0 <= i < |items| && Mentions(items[i])
    case Str(s) => Marked(s)
    case Null => false
    case Bool(_) => false
    case Num(_) => false
  }

  /** `$defs`, when it is there, is an object of objects. */
  predicate WellFormed(schema: map<string, Json>) {
    "$defs" in schema ==>
      schema["$defs"].Obj? && forall d | d in schema["$defs"].fields :: schema["$defs"].fields[d].Obj?
  }

  function Definitions(schema: map<string, Json>): Defs
    requires WellFormed(schema)
  {
    if "$defs" !in schema then map[]
    else map d | d in schema["$defs"].fields :: schema["$defs"].fields[d].fields
  }

  function CleanToolSchema(schema: map<string, Json>): Result
    requires WellFormed(schema)
  {
    match Resolve(Definitions(schema), Obj(schema), [])
    case Cycle => Recursive
    case Clean(v) => if Mentions(v) then Leftover else Cleaned(v)
  }

  // ---- Which schemas get past the closing check ----

  /** Some name or string that reaches the result mentions a reference. `hidden`
      are the fields that keywords beside a `$ref` replace. */
  predicate Loud(defs: Defs, v: Json, stack: seq<string>, hidden: set<string>)
    decreases Unfollowed(defs, stack), v, 1
  {
    match v
    case Obj(m) =>
      if "$ref" in m then
        var ref := RefName(m["$ref"]);
        || LoudFields(defs, v, DROPPED_BESIDE_REF + hidden, stack)
        || (ref in defs && ref !in stack &&
            assert Unfollowed(defs, stack + [ref]) < Unfollowed(defs, stack) by { FollowingShrinks(defs, stack, ref); }
            Loud(defs, Obj(defs[ref]), stack + [ref], hidden + (m.Keys - DROPPED_BESIDE_REF)))
      else if HasPropertyMap(m) then
        || LoudFields(defs, v, DROPPED + {"properties"} + hidden, stack)
        || ("properties" !in hidden && LoudFields(defs, m["properties"], {}, stack))
      else
        LoudFields(defs, v, DROPPED + hidden, stack)
    case Arr(items) => exists i :: 0 <= i < |items| && Loud(defs, items[i], stack, {})
    case Str(s) => Marked(s)
    case Null => false
    case Bool(_) => false
    case Num(_) => false
  }

  predicate LoudFields(defs: Defs, v: Json, skip: set<string>, stack: seq<string>)
    requires v.Obj?
    decreases Unfollowed(defs, stack), v, 0
  {
    exists k :: k in v.fields && k !in skip && (Marked(k) || Loud(defs, v.fields[k], stack, {}))
  }

  /** A field of the result that is not hidden mentions a reference. */
  predicate MentionsOutside(out: map<string, Json>, hidden: set<string>) {
    exists k :: k in out && k !in hidden && (Marked(k) || Mentions(out[k]))
  }

  lemma {:induction false} NotWithin(word: string, s: string)
    requires word != [] && word[0] !in s
    ensures !Within(word, s)
  {
    if s != [] {
      assert s[0] in s && forall c | c in s[1..] :: c in s;
      NotWithin(word, s[1..]);
    }
  }

  lemma DollarFree(s: string)
    requires '$' !in s
    ensures !Marked(s)
  {
    NotWithin("$ref", s);
    NotWithin("$defs", s);
  }

  lemma OutsideMerge(a: map<string, Json>, b: map<string, Json>, hidden: set<string>)
    ensures MentionsOutside(a + b, hidden) <==> MentionsOutside(b, hidden) || MentionsOutside(a, hidden + b.Keys)
  {
    var m := a + b;
    if k :| k in b && k !in hidden && (Marked(k) || Mentions(b[k])) {
      assert k in m && m[k] == b[k];
    }
    if k :| k in a && k !in hidden + b.Keys && (Marked(k) || Mentions(a[k])) {
      assert k in m && m[k] == a[k];
    }
  }

  lemma OutsideUpdate(a: map<string, Json>, name: string, v: Json, hidden: set<string>)
    requires name !in a && !Marked(name)
    ensures MentionsOutside(a[name := v], hidden) <==> MentionsOutside(a, hidden) || (name !in hidden && Mentions(v))
  {
    var m := a[name := v];
    assert m[name] == v;
    if k :| k in a && k !in hidden && (Marked(k) || Mentions(a[k])) {
      assert k in m && m[k] == a[k];
    }
  }

  /** The cleaned value mentions a reference exactly when the input is loud. */
  lemma {:induction false} LoudExactly(defs: Defs, v: Json, stack: seq<string>, hidden: set<string>, out: Json)
    requires Resolve(defs, v, stack) == Clean(out)
    ensures Loud(defs, v, stack, hidden) <==> if out.Obj? then MentionsOutside(out.fields, hidden) else Mentions(out)
    decreases Unfollowed(defs, stack), v, 1
  {
    match v {
      case Obj(m) =>
        if "$ref" in m {
          LoudReference(defs, m, stack, hidden, out);
        } else if HasPropertyMap(m) {
          LoudProperties(defs, m, stack, hidden, out);
        } else {
          LoudEach(defs, v, DROPPED, stack, hidden, out);
        }
      case Arr(items) =>
        forall i | 0 <= i < |items| ensures Loud(defs, items[i], stack, {}) <==> Mentions(out.items[i]) {
          LoudExactly(defs, items[i], stack, {}, out.items[i]);
        }
      case Str(_) =>
      case Null =>
      case Bool(_) =>
      case Num(_) =>
    }
  }

  lemma LoudReference(defs: Defs, m: map<string, Json>, stack: seq<string>, hidden: set<string>, out: Json)
    requires "$ref" in m && Resolve(defs, Obj(m), stack) == Clean(out)
    ensures Loud(defs, Obj(m), stack, hidden) <==> MentionsOutside(out.fields, hidden)
    decreases Unfollowed(defs, stack), Obj(m), 0, 1
  {
    var ref := RefName(m["$ref"]);
    var siblings := ResolveEach(defs, Obj(m), DROPPED_BESIDE_REF, stack).value;
    LoudEach(defs, Obj(m), DROPPED_BESIDE_REF, stack, hidden, siblings);
    if ref in defs {
      FollowingShrinks(defs, stack, ref);
      var target := Resolve(defs, Obj(defs[ref]), stack + [ref]).value;
      LoudExactly(defs, Obj(defs[ref]), stack + [ref], hidden + (m.Keys - DROPPED_BESIDE_REF), target);
      OutsideMerge(target.fields, siblings.fields, hidden);
    } else {
      OutsideMerge(map[], siblings.fields, hidden);
    }
  }

  lemma LoudProperties(defs: Defs, m: map<string, Json>, stack: seq<string>, hidden: set<string>, out: Json)
    requires "$ref" !in m && HasPropertyMap(m) && Resolve(defs, Obj(m), stack) == Clean(out)
    ensures Loud(defs, Obj(m), stack, hidden) <==> MentionsOutside(out.fields, hidden)
    decreases Unfollowed(defs, stack), Obj(m), 0, 2
  {
    var rest := ResolveEach(defs, Obj(m), DROPPED + {"properties"}, stack).value;
    var props := ResolveEach(defs, m["properties"], {}, stack).value;
    DollarFree("properties");
    LoudSplit(defs, m, "properties", DROPPED + {"properties"}, stack, hidden, rest, props);
  }

  /** The field `name` cleaned on its own, all others together. */
  lemma LoudSplit(defs: Defs, m: map<string, Json>, name: string, skip: set<string>, stack: seq<string>,
                  hidden: set<string>, rest: Json, props: Json)
    requires name in m && m[name].Obj? && name in skip && !Marked(name)
    requires ResolveEach(defs, Obj(m), skip, stack) == Clean(rest)
    requires ResolveEach(defs, m[name], {}, stack) == Clean(props)
    ensures LoudFields(defs, Obj(m), skip + hidden, stack) || (name !in hidden && LoudFields(defs, m[name], {}, stack))
       <==> MentionsOutside(rest.fields[name := props], hidden)
    decreases Unfollowed(defs, stack), Obj(m), 0, 1
  {
    LoudEach(defs, Obj(m), skip, stack, hidden, rest);
    LoudEach(defs, m[name], {}, stack, {}, props);
    var none: set<string> := {};
    assert none + none == none;
    OutsideUpdate(rest.fields, name, props, hidden);
  }

  lemma {:induction false} LoudEach(defs: Defs, v: Json, skip: set<string>, stack: seq<string>, hidden: set<string>,
                                    out: Json)
    requires v.Obj? && ResolveEach(defs, v, skip, stack) == Clean(out)
    ensures LoudFields(defs, v, skip + hidden, stack) <==> MentionsOutside(out.fields, hidden)
    decreases Unfollowed(defs, stack), v, 0, 0
  {
    forall k | k in v.fields && k !in skip
      ensures Loud(defs, v.fields[k], stack, {}) <==> Mentions(out.fields[k])
    {
      LoudExactly(defs, v.fields[k], stack, {}, out.fields[k]);
    }
  }

  // ---- The whole of it ----

  /** What becomes of any schema, exactly: refused as recursive when a chain of
      references names a definition twice, refused by the closing check when it is
      not recursive but loud, and otherwise turned into a schema that mentions no
      reference and, if it keeps to what the inliner supports, means the same. */
  lemma CleanToolSchemaExactly(schema: map<string, Json>)
    requires WellFormed(schema)
    ensures var defs, r := Definitions(schema), CleanToolSchema(schema);
      && (r.Recursive? <==> NamesTwice(defs, Obj(schema)))
      && (r.Leftover? <==> !NamesTwice(defs, Obj(schema)) && Loud(defs, Obj(schema), [], {}))
      && (r.Cleaned? ==> !Mentions(r.schema))
      && (r.Cleaned? && Supported(defs, Obj(schema), []) ==>
            forall holds, inst ::
              Valid(defs, holds, Obj(schema), [], inst) <==> Valid(map[], holds, r.schema, [], inst))
  {
    var defs := Definitions(schema);
    RecursiveExactly(defs, Obj(schema));
    if Resolve(defs, Obj(schema), []).Clean? {
      var out := Resolve(defs, Obj(schema), []).value;
      LoudExactly(defs, Obj(schema), [], {}, out);
      if Supported(defs, Obj(schema), []) {
        forall holds, inst
          ensures Valid(defs, holds, Obj(schema), [], inst) <==> Valid(map[], holds, out, [], inst)
        {
          CleaningPreservesMeaning(defs, holds, Obj(schema), inst);
        }
      }
    }
  }

  // ---- Schemas that nothing in the text gives away ----

  /** Judged without following references: no field that is kept mentions one. */
  predicate Quiet(v: Json) {
    match v
    case Obj(m) =>
      if "$ref" !in m && HasPropertyMap(m) then
        && (forall k | k in m && k !in DROPPED && k != "properties" :: !Marked(k) && Quiet(m[k]))
        && forall p | p in m["properties"].fields :: !Marked(p) && Quiet(m["properties"].fields[p])
      else
        forall k | k in m && k !in Skipped(m) :: !Marked(k) && Quiet(m[k])
    case Arr(items) => forall i | 0 <= i < |items| :: Quiet(items[i])
    case Str(s) => !Marked(s)
    case Null => true
    case Bool(_) => true
    case Num(_) => true
  }

  /** The keywords that cleaning takes out of a schema object. */
  function Skipped(m: map<string, Json>): set<string> {
    if "$ref" in m then DROPPED_BESIDE_REF else DROPPED
  }

  ghost predicate QuietDefs(defs: Defs) {
    forall d | d in defs :: Quiet(Obj(defs[d]))
  }

  lemma {:induction false} QuietIsNotLoud(defs: Defs, v: Json, stack: seq<string>, hidden: set<string>)
    requires QuietDefs(defs) && Quiet(v)
    ensures !Loud(defs, v, stack, hidden)
    decreases Unfollowed(defs, stack), v, 1
  {
    match v {
      case Obj(m) =>
        if "$ref" in m {
          QuietFields(defs, v, DROPPED_BESIDE_REF + hidden, stack);
          var ref := RefName(m["$ref"]);
          if ref in defs && ref !in stack {
            FollowingShrinks(defs, stack, ref);
            QuietIsNotLoud(defs, Obj(defs[ref]), stack + [ref], hidden + (m.Keys - DROPPED_BESIDE_REF));
          }
        } else if HasPropertyMap(m) {
          QuietFields(defs, v, DROPPED + {"properties"} + hidden, stack);
          QuietFields(defs, m["properties"], {}, stack);
        } else {
          QuietFields(defs, v, DROPPED + hidden, stack);
        }
      case Arr(items) =>
        forall i | 0 <= i < |items| ensures !Loud(defs, items[i], stack, {}) {
          QuietIsNotLoud(defs, items[i], stack, {});
        }
      case Str(_) =>
      case Null =>
      case Bool(_) =>
      case Num(_) =>
    }
  }

  lemma {:induction false} QuietFields(defs: Defs, v: Json, skip: set<string>, stack: seq<string>)
    requires QuietDefs(defs) && v.Obj?
    requires forall k | k in v.fields && k !in skip :: !Marked(k) && Quiet(v.fields[k])
    ensures !LoudFields(defs, v, skip, stack)
    decreases Unfollowed(defs, stack), v, 0
  {
    forall k | k in v.fields && k !in skip ensures !Loud(defs, v.fields[k], stack, {}) {
      QuietIsNotLoud(defs, v.fields[k], stack, {});
    }
  }

  /** A schema that mentions references only where they are followed is either
      recursive or cleaned; the closing check never fires on it. */
  lemma QuietSchemasAreCleaned(schema: map<string, Json>)
    requires WellFormed(schema) && Quiet(Obj(schema)) && QuietDefs(Definitions(schema))
    ensures CleanToolSchema(schema) != Leftover
  {
    QuietIsNotLoud(Definitions(schema), Obj(schema), [], {});
    CleanToolSchemaExactly(schema);
  }

  /** `$defs` beside a `$ref` is kept, so a root that is nothing but a reference
      into its own definitions is refused, recursive or not. */
  lemma RootReferencesAreRefused(schema: map<string, Json>)
    requires WellFormed(schema) && "$ref" in schema && "$defs" in schema
    ensures !CleanToolSchema(schema).Cleaned?
  {
    var r := Resolve(Definitions(schema), Obj(schema), []);
    if r.Clean? {
      assert "$defs" in r.value.fields && Marked("$defs");
    }
  }

  // ---- Which keywords survive ----

  /** Somewhere along the chain of references a `default` stands beside a `$ref`. */
  predicate DefaultBesideReference(defs: Defs, m: map<string, Json>, stack: seq<string>)
    decreases Unfollowed(defs, stack)
  {
    "$ref" in m &&
    ( || "default" in m
      || var ref := RefName(m["$ref"]);
         ref in defs && ref !in stack &&
         assert Unfollowed(defs, stack + [ref]) < Unfollowed(defs, stack) by { FollowingShrinks(defs, stack, ref); }
         DefaultBesideReference(defs, defs[ref], stack + [ref]))
  }

  /** `title` never survives as a keyword. `default` does exactly when it stands
      beside a `$ref`, although every `default` keyword is promised to be dropped.
      Names of properties, `title` and `default` among them, all survive. */
  lemma {:induction false} KeywordsThatSurvive(defs: Defs, m: map<string, Json>, stack: seq<string>)
    requires Resolve(defs, Obj(m), stack).Clean?
    ensures var out := Resolve(defs, Obj(m), stack).value.fields;
      && "title" !in out
      && ("default" in out <==> DefaultBesideReference(defs, m, stack))
      && ("$ref" !in m && HasPropertyMap(m) ==>
            HasPropertyMap(out) && out["properties"].fields.Keys == m["properties"].fields.Keys)
    decreases Unfollowed(defs, stack)
  {
    if "$ref" in m {
      var ref := RefName(m["$ref"]);
      if ref in defs {
        FollowingShrinks(defs, stack, ref);
        KeywordsThatSurvive(defs, defs[ref], stack + [ref]);
      }
    }
  }

  lemma {:induction false} NoReferenceLeft(defs: Defs, m: map<string, Json>, stack: seq<string>)
    requires Resolve(defs, Obj(m), stack).Clean?
    ensures "$ref" !in Resolve(defs, Obj(m), stack).value.fields
    decreases Unfollowed(defs, stack)
  {
    if "$ref" in m {
      var ref := RefName(m["$ref"]);
      if ref in defs {
        FollowingShrinks(defs, stack, ref);
        NoReferenceLeft(defs, defs[ref], stack + [ref]);
      }
    }
  }

  /** Beside a `$ref` the names under `properties` are cleaned as if they were
      keywords: all of them survive exactly when none is called `$ref`, `$defs`,
      `title` or `default`. A field called `properties` keeps its schema's keywords
      as they are, `title`, `default` and `$ref` included. */
  lemma FieldNamesBesideReference(defs: Defs, m: map<string, Json>, stack: seq<string>)
    requires "$ref" in m && HasPropertyMap(m) && Resolve(defs, Obj(m), stack).Clean?
    ensures var out, names := Resolve(defs, Obj(m), stack).value.fields, m["properties"].fields;
      && HasPropertyMap(out)
      && (out["properties"].fields.Keys == names.Keys <==> names.Keys !! DROPPED + {"$ref"})
      && ("$ref" !in names ==> out["properties"].fields.Keys == names.Keys - DROPPED)
      && ("$ref" !in names && HasPropertyMap(names) ==>
            HasPropertyMap(out["properties"].fields)
            && out["properties"].fields["properties"].fields.Keys == names["properties"].fields.Keys)
  {
    var names := m["properties"].fields;
    assert ResolveEach(defs, Obj(m), DROPPED_BESIDE_REF, stack).Clean?;
    var cleaned := Resolve(defs, Obj(names), stack);
    assert cleaned.Clean?;
    if "$ref" in names {
      NoReferenceLeft(defs, names, stack);
    } else {
      assert cleaned.value.fields.Keys == names.Keys - DROPPED;
    }
  }

  // ---- Inputs that show what is lost and what is left ----

  /** A reference to a defined, empty model, with one more keyword beside it. */
  lemma BesideEmptyModel(k: string, v: Json, w: Json)
    requires k !in {"$ref", "title"} && Resolve(map["A" := map[]], v, []) == Clean(w)
    ensures Resolve(map["A" := map[]], Obj(map["$ref" := Str("A"), k := v]), []) == Clean(Obj(map[k := w]))
  {
    var defs: Defs := map["A" := map[]];
    var node := Obj(map["$ref" := Str("A"), k := v]);
    assert RefName(Str("A")) == "A" && [] + ["A"] == ["A"];
    assert Resolve(defs, Obj(map[]), ["A"]) == Clean(Obj(map[]));
    var siblings := ResolveEach(defs, node, DROPPED_BESIDE_REF, []);
    assert siblings.Clean? && siblings.value.fields == map[k := w];
    assert map[] + map[k := w] == map[k := w];
  }

  /** The promise to drop `default` fails on `{"$ref": "A", "default": null}`. */
  lemma DefaultCanSurvive()
    ensures Resolve(map["A" := map[]], Obj(map["$ref" := Str("A"), "default" := Null]), []) ==
            Clean(Obj(map["default" := Null]))
  {
    BesideEmptyModel("default", Null, Null);
  }

  /** The promise to keep a field called `title` fails on
      `{"$ref": "A", "properties": {"title": null}}`. */
  lemma ATitleFieldCanBeLost()
    ensures Resolve(map["A" := map[]], Obj(map["$ref" := Str("A"), "properties" := Obj(map["title" := Null])]), []) ==
            Clean(Obj(map["properties" := Obj(map[])]))
  {
    var defs: Defs := map["A" := map[]];
    var names := Obj(map["title" := Null]);
    var r := ResolveEach(defs, names, DROPPED, []);
    assert r.Clean? && r.value.fields == map[];
    BesideEmptyModel("properties", names, Obj(map[]));
  }

  /** A root that refers to an empty model is not recursive, and refused. */
  lemma AcyclicRootIsRefused()
    ensures var schema := map["$ref" := Str("A"), "$defs" := Obj(map["A" := Obj(map[])])];
      WellFormed(schema) && CleanToolSchema(schema) == Leftover
  {
    var models := map["A" := Obj(map[])];
    var schema := map["$ref" := Str("A"), "$defs" := Obj(models)];
    var defs := Definitions(schema);
    assert defs == map["A" := map[]];
    assert Resolve(defs, Obj(map[]), []) == Clean(Obj(map[]));
    var r := ResolveEach(defs, Obj(models), DROPPED, []);
    assert r.Clean? && r.value.fields == models;
    BesideEmptyModel("$defs", Obj(models), Obj(models));
    assert "$defs" in map["$defs" := Obj(models)] && Marked("$defs");
  }

  lemma MarkedWords()
    ensures Marked("$ref") && Marked("$defs")
  {
    assert "$ref" <= "$ref" && "$defs" <= "$defs";
  }

  /** A text that happens to name the word is refused: `{"description": "$ref"}`. */
  lemma ATextIsRefused()
    ensures CleanToolSchema(map["description" := Str("$ref")]) == Leftover
  {
    var schema := map["description" := Str("$ref")];
    MarkedWords();
    assert Definitions(schema) == map[];
    assert Resolve(map[], Str("$ref"), []) == Clean(Str("$ref"));
    assert LoudFields(map[], Obj(schema), DROPPED + {}, []) by {
      assert Loud(map[], schema["description"], [], {});
    }
    CleanToolSchemaExactly(schema);
  }

  /** What no reference reaches is not looked at:
      `{"$defs": {"A": {"description": "$ref"}}}` is cleaned. */
  lemma UnreachedDefinitionsAreIgnored()
    ensures var schema := map["$defs" := Obj(map["A" := Obj(map["description" := Str("$ref")])])];
      WellFormed(schema) && CleanToolSchema(schema) == Cleaned(Obj(map[])) && !QuietDefs(Definitions(schema))
  {
    var a := map["description" := Str("$ref")];
    var schema := map["$defs" := Obj(map["A" := Obj(a)])];
    MarkedWords();
    assert Definitions(schema)["A"] == a && !Quiet(a["description"]);
    var out := ResolveEach(Definitions(schema), Obj(schema), DROPPED, []);
    assert out.Clean? && out.value.fields == map[];
  }

  lemma NestedIsLoud(defs: Defs, inner: map<string, Json>, schema: map<string, Json>)
    requires "$ref" in inner && "$defs" in inner && Resolve(defs, Obj(inner), []).Clean?
    requires "$ref" !in schema && !HasPropertyMap(schema) && schema.Keys == {"items", "$defs"}
    requires schema["items"] == Obj(inner)
    ensures Loud(defs, Obj(schema), [], {}) && Resolve(defs, Obj(schema), []).Clean?
  {
    assert Marked("$defs");
    assert LoudFields(defs, Obj(inner), DROPPED_BESIDE_REF + {}, []);
    assert Loud(defs, schema["items"], [], {});
    assert forall k | k in schema && k !in DROPPED :: k == "items";
    assert LoudFields(defs, Obj(schema), DROPPED + {}, []);
  }

  /** `$defs` beside a nested `$ref` is refused too:
      `{"items": {"$ref": "A", "$defs": {}}, "$defs": {"A": {}}}`. */
  lemma NestedDefinitionsAreRefused()
    ensures var schema := map["items" := Obj(map["$ref" := Str("A"), "$defs" := Obj(map[])]),
                              "$defs" := Obj(map["A" := Obj(map[])])];
      WellFormed(schema) && CleanToolSchema(schema) == Leftover
  {
    var inner := map["$ref" := Str("A"), "$defs" := Obj(map[])];
    var schema := map["items" := Obj(inner), "$defs" := Obj(map["A" := Obj(map[])])];
    var defs := Definitions(schema);
    assert defs == map["A" := map[]];
    MarkedWords();
    BesideEmptyModel("$defs", Obj(map[]), Obj(map[]));
    NestedIsLoud(defs, inner, schema);
    CleanToolSchemaExactly(schema);
  }
}
