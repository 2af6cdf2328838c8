/** The schema checks of the catalog: nesting, references and response shape. */
module SchemaCheck {
  import opened Prelude
  import opened Json

  const MAX_SCHEMA_DEPTH := 32
  const MAX_SCHEMA_BYTES := 64 * 1024

  datatype SchemaError = Missing | TooLarge | NestingLimit | RemoteReference

  predicate IsReferenceKey(key: string) {
    key == "$ref" || key == "$dynamicRef"
  }

  predicate IsLocalReference(v: Value) {
    v.Str? && "#" <= v.s
  }

  /** Every reference keyword directly inside `v` is local. */
  predicate LocalReferences(v: Value) {
    v.Obj? ==> forall k | k in v.fields && IsReferenceKey(k) :: IsLocalReference(v.fields[k])
  }

  /** Some value inside `v`, counted from `depth`, is nested beyond the limit. */
  ghost predicate TooDeep(v: Value, depth: int) {
    exists p :: At(v, p).Some? && depth + |p| > MAX_SCHEMA_DEPTH
  }

  /** Some value inside `v` holds a reference that is not local. */
  ghost predicate HasRemoteReference(v: Value) {
    exists p :: At(v, p).Some? && !LocalReferences(At(v, p).value)
  }

  /** What the recursive check decides, in terms of height: the depth of the root plus the height
      of the value, less one, must not exceed the limit. */
  lemma TooDeepIsHeight(v: Value, depth: int)
    ensures !TooDeep(v, depth) <==> depth + Height(v) - 1 <= MAX_SCHEMA_DEPTH
  {
    var longest := LongestPath(v);
    forall p | At(v, p).Some? {
      PathsAreShort(v, p);
    }
  }

  /** Some `$ref` or `$dynamicRef`, at any depth, is not a string that starts with a number sign. */
  ghost predicate RefersOutside(v: Value) {
    exists p: seq<Step>, name: string :: NamesOutside(v, p, name)
  }

  predicate NamesOutside(v: Value, p: seq<Step>, name: string) {
    && (name == "$ref" || name == "$dynamicRef")
    && At(v, p + [Key(name)]).Some?
    && var target := At(v, p + [Key(name)]).value;
    !(target.Str? && target.s != "" && target.s[0] == '#')
  }

  lemma {:induction false} AtAppend(v: Value, p: seq<Step>, name: string)
    ensures At(v, p + [Key(name)]) ==
              if At(v, p).Some? && At(v, p).value.Obj? && name in At(v, p).value.fields
              then Some(At(v, p).value.fields[name]) else None
    decreases |p|
  {
    if p == [] {
      assert [] + [Key(name)] == [Key(name)] && [Key(name)][1..] == [];
    } else {
      assert (p + [Key(name)])[1..] == p[1..] + [Key(name)];
      match (p[0], v)
      case (Key(k), Obj(fields)) =>
        if k in fields {
          AtAppend(fields[k], p[1..], name);
        }
      case (Index(i), Arr(items)) =>
        if i < |items| {
          AtAppend(items[i], p[1..], name);
        }
      case _ =>
    }
  }

  lemma LocalIff(v: Value)
    ensures IsLocalReference(v) <==> v.Str? && v.s != "" && v.s[0] == '#'
  {
  }

  /** The recursive check looks for exactly these references. */
  lemma RemoteReferenceIff(v: Value)
    ensures HasRemoteReference(v) <==> RefersOutside(v)
  {
    if p :| At(v, p).Some? && !LocalReferences(At(v, p).value) {
      var fields := At(v, p).value.fields;
      var name :| name in fields && IsReferenceKey(name) && !IsLocalReference(fields[name]);
      AtAppend(v, p, name);
      LocalIff(fields[name]);
      assert NamesOutside(v, p, name);
    }
    if p: seq<Step>, name: string :| NamesOutside(v, p, name) {
      AtAppend(v, p, name);
      var fields := At(v, p).value.fields;
      LocalIff(fields[name]);
      assert IsReferenceKey(name);
      assert !LocalReferences(At(v, p).value);
    }
  }

  lemma TooDeepChild(v: Value, step: Step, child: Value, depth: int)
    requires At(v, [step]) == Some(child)
    ensures TooDeep(child, depth + 1) ==> TooDeep(v, depth)
    ensures HasRemoteReference(child) ==> HasRemoteReference(v)
  {
    if TooDeep(child, depth + 1) {
      var p :| At(child, p).Some? && depth + 1 + |p| > MAX_SCHEMA_DEPTH;
      AtCons(v, step, p);
    }
    if HasRemoteReference(child) {
      var p :| At(child, p).Some? && !LocalReferences(At(child, p).value);
      AtCons(v, step, p);
    }
  }

  /** A violation inside `v` is at `v` itself or inside one of its children. */
  lemma ViolationIsLocalOrBelow(v: Value, depth: int)
    requires depth <= MAX_SCHEMA_DEPTH && LocalReferences(v)
    requires forall step: Step, child :: At(v, [step]) == Some(child) ==>
               !TooDeep(child, depth + 1) && !HasRemoteReference(child)
    ensures !TooDeep(v, depth) && !HasRemoteReference(v)
  {
    forall p | At(v, p).Some?
      ensures depth + |p| <= MAX_SCHEMA_DEPTH && LocalReferences(At(v, p).value)
    {
      if p != [] {
        AtCons(v, p[0], p[1..]);
        assert p == [p[0]] + p[1..];
        var child := At(v, [p[0]]).value;
        assert !TooDeep(child, depth + 1) && !HasRemoteReference(child);
      }
    }
  }

  /** Neither violation occurs inside `v`. */
  ghost predicate Clean(v: Value, depth: int) {
    !TooDeep(v, depth) && !HasRemoteReference(v)
  }

  /** An error reported for `v` is one that it contains. */
  ghost predicate Justified(error: Option<SchemaError>, v: Value, depth: int) {
    && (error.None? <==> Clean(v, depth))
    && (error.Some? ==>
          || (error.value == NestingLimit && TooDeep(v, depth))
          || (error.value == RemoteReference && HasRemoteReference(v)))
  }

  lemma JustifiedByChild(error: Option<SchemaError>, v: Value, step: Step, child: Value, depth: int)
    requires At(v, [step]) == Some(child) && Justified(error, child, depth + 1) && error.Some?
    ensures Justified(error, v, depth)
  {
    TooDeepChild(v, step, child, depth);
  }

  /** Recursive check of one schema value. The answer does not depend on the order in which map
      entries are visited, and an error is only reported for a violation that exists. */
  method ValidateSchemaValue(v: Value, depth: int) returns (error: Option<SchemaError>)
    ensures error.None? <==> !TooDeep(v, depth) && !HasRemoteReference(v)
    ensures error == Some(NestingLimit) ==> TooDeep(v, depth)
    ensures error == Some(RemoteReference) ==> HasRemoteReference(v)
    ensures error.Some? ==> error.value in {NestingLimit, RemoteReference}
    ensures error.None? <==> depth + Height(v) - 1 <= 32 && !RefersOutside(v)
    decreases v, 1
  {
    TooDeepIsHeight(v, depth);
    RemoteReferenceIff(v);
    if depth > MAX_SCHEMA_DEPTH {
      assert At(v, []) == Some(v);
      return Some(NestingLimit);
    }
    match v
    case Obj(fields) => error := ValidateEntries(fields, depth);
    case Arr(items) => error := ValidateItems(items, depth);
    case _ =>
      ViolationIsLocalOrBelow(v, depth);
      return None;
  }

  /** The loop over the entries of an object, in an arbitrary order. */
  method ValidateEntries(fields: map<string, Value>, depth: int) returns (error: Option<SchemaError>)
    requires depth <= MAX_SCHEMA_DEPTH
    ensures Justified(error, Obj(fields), depth)
    decreases Obj(fields), 0
  {
    ghost var v := Obj(fields);
    var keys := fields.Keys;
    while keys != {}
      invariant keys <= fields.Keys
      invariant forall k | k in fields.Keys - keys ::
                  (IsReferenceKey(k) ==> IsLocalReference(fields[k])) && Clean(fields[k], depth + 1)
    {
      var key :| key in keys;
      if IsReferenceKey(key) && !IsLocalReference(fields[key]) {
        assert At(v, []) == Some(v) && !LocalReferences(v);
        return Some(RemoteReference);
      }
      error := ValidateSchemaValue(fields[key], depth + 1);
      if error.Some? {
        assert [Key(key)][1..] == [];
        JustifiedByChild(error, v, Key(key), fields[key], depth);
        return;
      }
      keys := keys - {key};
    }
    CleanObject(fields, depth);
    return None;
  }

  lemma CleanObject(fields: map<string, Value>, depth: int)
    requires depth <= MAX_SCHEMA_DEPTH
    requires forall k | k in fields ::
               (IsReferenceKey(k) ==> IsLocalReference(fields[k])) && Clean(fields[k], depth + 1)
    ensures Clean(Obj(fields), depth)
  {
    ViolationIsLocalOrBelow(Obj(fields), depth);
  }

  /** The loop over the items of an array. */
  method ValidateItems(items: seq<Value>, depth: int) returns (error: Option<SchemaError>)
    requires depth <= MAX_SCHEMA_DEPTH
    ensures Justified(error, Arr(items), depth)
    decreases Arr(items), 0
  {
    for i := 0 to |items|
      invariant forall j | 0 <= j < i :: Clean(items[j], depth + 1)
    {
      error := ValidateSchemaValue(items[i], depth + 1);
      if error.Some? {
        assert [Index(i)][1..] == [];
        JustifiedByChild(error, Arr(items), Index(i), items[i], depth);
        return;
      }
    }
    CleanArray(items, depth);
    return None;
  }

  lemma CleanArray(items: seq<Value>, depth: int)
    requires depth <= MAX_SCHEMA_DEPTH
    requires forall j | 0 <= j < |items| :: Clean(items[j], depth + 1)
    ensures Clean(Arr(items), depth)
  {
    ViolationIsLocalOrBelow(Arr(items), depth);
  }

  /** A schema is acceptable when it is present, its encoding (of `size` bytes, or not encodable)
      is small enough, and the recursive check passes from depth 1. */
  ghost predicate SchemaAccepted(schema: Value, size: Value -> Option<nat>) {
    && schema.Obj?
    && size(schema).Some? && size(schema).value <= MAX_SCHEMA_BYTES
    && !TooDeep(schema, 1) && !HasRemoteReference(schema)
  }

  /** A schema that is an object, encodes in at most 64 KiB, is nested at most 32 deep, and refers only to
      itself. */
  ghost predicate SchemaMeets(s: Value, size: Value -> Option<nat>) {
    s.Obj? && size(s).Some? && size(s).value <= 65536 && Height(s) <= 32 && !RefersOutside(s)
  }

  lemma SchemaAcceptedIff(s: Value, size: Value -> Option<nat>)
    ensures SchemaAccepted(s, size) <==> SchemaMeets(s, size)
  {
    TooDeepIsHeight(s, 1);
    RemoteReferenceIff(s);
  }

  method ValidateSchema(schema: Value, size: Value -> Option<nat>) returns (error: Option<SchemaError>)
    requires schema.Obj? || schema.Null?
    ensures error.None? <==> SchemaAccepted(schema, size)
    ensures error.None? <==> SchemaMeets(schema, size)
  {
    SchemaAcceptedIff(schema, size);
    if schema.Null? {
      return Some(Missing);
    }
    if size(schema).None? || size(schema).value > MAX_SCHEMA_BYTES {
      return Some(TooLarge);
    }
    error := ValidateSchemaValue(schema, 1);
  }

  /** Linear search of a `required` list for a name. */
  predicate ContainsRequired(v: Value, expected: string) {
    v.Arr? && Str(expected) in v.items
  }

  predicate MatchesStringSchema(v: Value) {
    v.Obj? && v.Get("type") == Str("string")
  }

  predicate MatchesSectionSchema(item: Value) {
    && item.Obj?
    && item.Get("properties").Obj?
    && item.Get("type") == Str("object")
    && ContainsRequired(item.Get("required"), "label")
    && ContainsRequired(item.Get("required"), "value")
    && MatchesStringSchema(item.Get("properties").Get("label"))
  }

  predicate MatchesStructuredSchema(schema: Value) {
    && schema.Get("type") == Str("object")
    && var properties := schema.Get("properties");
    && properties.Obj?
    && ContainsRequired(schema.Get("required"), "title")
    && ContainsRequired(schema.Get("required"), "sections")
    && var title, sections := properties.Get("title"), properties.Get("sections");
    && title.Obj? && sections.Obj?
    && title.Get("type") == Str("string")
    && sections.Get("type") == Str("array")
    && MatchesSectionSchema(sections.Get("items"))
  }

  predicate MatchesResponseFormat(responseFormat: string, schema: Value) {
    if responseFormat == "TEXT" || responseFormat == "MARKDOWN" then schema.Get("type") == Str("string")
    else if responseFormat == "STRUCTURED" then MatchesStructuredSchema(schema)
    else responseFormat == "JSON"
  }
}
