/** JSON values and what it means for an instance to satisfy a schema, in the
    vocabulary that tool schemas use (JSON Schema 2020-12: Core sections 8.2.3.1,
    8.2.4 and 10; Validation section 9). */
module JsonSchema {
  import opened Sequences

  datatype Json =
    | Null
    | Bool(b: bool)
    | Num(n: real)
    | Str(s: string)
    | Arr(items: seq<Json>)
    | Obj(fields: map<string, Json>)

  /** The definitions a schema carries: every one is a schema object. */
  type Defs = map<string, map<string, Json>>

  /** How every keyword that is neither an annotation nor an applicator judges
      an instance. Left open: the results hold for any reading of `type`,
      `enum`, `minimum`, `required` and the rest. */
  type Assertion = (string, Json, Json) -> bool

  /** Keywords that never reject an instance. */
  const ANNOTATIONS: set<string> :=
    {"title", "default", "description", "examples", "deprecated", "readOnly", "writeOnly", "$comment", "$defs"}

  /** The text after the last `/`: `str(ref).split("/")[-1]`. */
  function LastSegment(s: string): string {
    if s == [] then []
    else if Last(s) == '/' then []
    else LastSegment(Front(s)) + [Last(s)]
  }

  function RefName(v: Json): string {
    if v.Str? then LastSegment(v.s) else ""
  }

  /** The property names a schema object declares. */
  function Declared(m: map<string, Json>): set<string> {
    if "properties" in m && m["properties"].Obj? then m["properties"].fields.Keys else {}
  }

  /** Definitions that are not being followed yet. */
  function Unfollowed(defs: Defs, stack: seq<string>): set<string> {
    defs.Keys - Elements(stack)
  }

  lemma FollowingShrinks(defs: Defs, stack: seq<string>, ref: string)
    requires ref in defs && ref !in stack
    ensures Unfollowed(defs, stack + [ref]) < Unfollowed(defs, stack)
  {
    assert ref in Unfollowed(defs, stack) && ref in Elements(stack + [ref]);
    forall d | d in Unfollowed(defs, stack + [ref]) ensures d in Unfollowed(defs, stack) {
      assert d !in stack + [ref];
    }
  }

  /** What a combining keyword makes of the verdicts of its subschemas. */
  predicate Combines(k: string, verdicts: seq<bool>) {
    if k == "allOf" then forall i | 0 <= i < |verdicts| :: verdicts[i]
    else if k == "anyOf" then exists i :: 0 <= i < |verdicts| && verdicts[i]
    else exists i :: 0 <= i < |verdicts| && verdicts[i] && forall j | 0 <= j < |verdicts| && j != i :: !verdicts[j]
  }

  /** `inst` satisfies `node`. References are followed into `defs`; `stack` lists
      the ones being followed and only serves to end the recursion, since a
      schema that needs it is cyclic. A reference that is not defined, and a
      cyclic one, accept everything. */
  ghost predicate Valid(defs: Defs, holds: Assertion, node: Json, stack: seq<string>, inst: Json)
    decreases Unfollowed(defs, stack), node, 1
  {
    match node
    case Bool(b) => b
    case Obj(m) => forall k | k in m :: Keyword(defs, holds, node, k, stack, inst)
    case Null => true
    case Num(_) => true
    case Str(_) => true
    case Arr(_) => true
  }

  /** `inst` satisfies the keyword `k` of the schema object `node`. */
  ghost predicate Keyword(defs: Defs, holds: Assertion, node: Json, k: string, stack: seq<string>, inst: Json)
    requires node.Obj? && k in node.fields
    decreases Unfollowed(defs, stack), node, 0
  {
    var v := node.fields[k];
    if k == "$ref" then
      var ref := RefName(v);
      if ref in defs && ref !in stack then
        assert Unfollowed(defs, stack + [ref]) < Unfollowed(defs, stack) by { FollowingShrinks(defs, stack, ref); }
        Valid(defs, holds, Obj(defs[ref]), stack + [ref], inst)
      else true
    else if k in ANNOTATIONS then true
    else if k == "properties" then
      v.Obj? && inst.Obj? ==>
        forall p | p in v.fields && p in inst.fields :: Valid(defs, holds, v.fields[p], stack, inst.fields[p])
    else if k == "additionalProperties" then
      inst.Obj? ==>
        forall p | p in inst.fields && p !in Declared(node.fields) :: Valid(defs, holds, v, stack, inst.fields[p])
    else if k == "items" then
      inst.Arr? ==> forall i | 0 <= i < |inst.items| :: Valid(defs, holds, v, stack, inst.items[i])
    else if k in {"allOf", "anyOf", "oneOf"} then
      v.Arr? ==> Combines(k, seq(|v.items|, i requires 0 <= i < |v.items| => Valid(defs, holds, v.items[i], stack, inst)))
    else if k == "not" then
      !Valid(defs, holds, v, stack, inst)
    else
      holds(k, v, inst)
  }
}
