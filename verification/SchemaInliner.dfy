/** Turning a model's schema into a flat tool schema: `_clean_tool_schema` in
    `src/salient_core/bus/_common.py:88-146`. */
module SchemaInliner {
  import opened JsonSchema

  datatype Outcome = Clean(value: Json) | Cycle

  const DROPPED: set<string> := {"$defs", "title", "default"}
  const DROPPED_BESIDE_REF: set<string> := {"$ref", "title"}

  predicate HasPropertyMap(m: map<string, Json>) {
    "properties" in m && m["properties"].Obj?
  }

  /** `_resolve`. The measure is the set of definitions not being inlined yet,
      then the tree. */
  function Resolve(defs: Defs, node: Json, stack: seq<string>): (r: Outcome)
    ensures r.Clean? && node.Obj? ==> r.value.Obj?
    ensures r.Clean? && !node.Obj? ==> !r.value.Obj?
    decreases Unfollowed(defs, stack), node, 1
  {
    match node
    case Obj(m) =>
      if "$ref" in m then
        var ref := RefName(m["$ref"]);
        if ref in stack then Cycle
        else
          var target :=
            if ref in defs then
              FollowingShrinks(defs, stack, ref);
              Resolve(defs, Obj(defs[ref]), stack + [ref])
            else Clean(Obj(map[]));
          var siblings := ResolveEach(defs, node, DROPPED_BESIDE_REF, stack);
          if target.Cycle? || siblings.Cycle? then Cycle
          else Clean(Obj(target.value.fields + siblings.value.fields))
      else if HasPropertyMap(m) then
        var rest := ResolveEach(defs, node, DROPPED + {"properties"}, stack);
        var props := ResolveEach(defs, m["properties"], {}, stack);
        if rest.Cycle? || props.Cycle? then Cycle
        else Clean(Obj(rest.value.fields["properties" := props.value]))
      else
        ResolveEach(defs, node, DROPPED, stack)
    case Arr(items) =>
      if exists i :: 0 <= i < |items| && Resolve(defs, items[i], stack).Cycle? then Cycle
      else Clean(Arr(seq(|items|, i requires 0 <= i < |items| => Resolve(defs, items[i], stack).value)))
    case Null => Clean(node)
    case Bool(_) => Clean(node)
    case Num(_) => Clean(node)
    case Str(_) => Clean(node)
  }

  /** Resolve the value of every field whose name is not skipped. */
  function ResolveEach(defs: Defs, node: Json, skip: set<string>, stack: seq<string>): (r: Outcome)
    requires node.Obj?
    ensures r.Clean? ==> r.value.Obj? && r.value.fields.Keys == node.fields.Keys - skip
    decreases Unfollowed(defs, stack), node, 0
  {
    var m := node.fields;
    if exists k :: k in m && k !in skip && Resolve(defs, m[k], stack).Cycle? then Cycle
    else Clean(Obj(map k | k in m && k !in skip :: Resolve(defs, m[k], stack).value))
  }
}
