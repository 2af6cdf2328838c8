/** Removal of `format` from a schema before it is sent to OpenAI. */
module SchemaNormalize {
  import opened Prelude
  import opened Json
  import opened SchemaCheck

  function Normalize(v: Value): Value
    decreases v
  {
    match v
    case Obj(fields) => Obj(map k | k in fields && k != "format" :: Normalize(fields[k]))
    case Arr(items) => Arr(seq(|items|, i requires 0 <= i < |items| => Normalize(items[i])))
    case _ => v
  }

  /** The recursion with its loops: a fresh map filled in an arbitrary key order, a fresh slice
      filled by index. */
  method NormalizeSchemaValue(v: Value) returns (r: Value)
    ensures r == Normalize(v)
    decreases v
  {
    match v
    case Obj(fields) =>
      var normalized: map<string, Value> := map[];
      var keys := fields.Keys;
      while keys != {}
        invariant keys <= fields.Keys
        invariant normalized == map k | k in fields && k !in keys && k != "format" :: Normalize(fields[k])
      {
        var key :| key in keys;
        keys := keys - {key};
        if key != "format" {
          var child := NormalizeSchemaValue(fields[key]);
          normalized := normalized[key := child];
        }
      }
      r := Obj(normalized);
    case Arr(items) =>
      var normalized: seq<Value> := [];
      for i := 0 to |items|
        invariant |normalized| == i
        invariant forall j | 0 <= j < i :: normalized[j] == Normalize(items[j])
      {
        var child := NormalizeSchemaValue(items[i]);
        normalized := normalized + [child];
      }
      r := Arr(normalized);
      assert r.items == Normalize(v).items;
    case _ =>
      r := v;
  }

  /** The entry point falls back to the empty object when the result is not an object. */
  method NormalizeSchemaForOpenAI(schema: Value) returns (r: Value)
    requires schema.Obj? || schema.Null?
    ensures r.Obj?
    ensures schema.Obj? ==> r == Normalize(schema)
    ensures schema.Null? ==> r == Obj(map[])
  {
    r := NormalizeSchemaValue(if schema.Null? then Obj(map[]) else schema);
  }

  /** What survives, path by path: exactly the values whose path has no `format` key. */
  lemma {:induction false} NormalizedPaths(v: Value, p: seq<Step>)
    ensures At(Normalize(v), p) ==
            if Key("format") in p || At(v, p).None? then None
            else Some(Normalize(At(v, p).value))
    decreases |p|
  {
    if p == [] {
    } else {
      match (p[0], v)
      case (Key(k), Obj(fields)) =>
        if k in fields {
          NormalizedPaths(fields[k], p[1..]);
        }
      case (Index(i), Arr(items)) =>
        if i < |items| {
          NormalizedPaths(items[i], p[1..]);
        }
      case _ =>
    }
  }

  /** No object inside `v` has a `format` key. */
  predicate NoFormatKey(v: Value)
    decreases v
  {
    match v
    case Obj(fields) => "format" !in fields && forall k | k in fields :: NoFormatKey(fields[k])
    case Arr(items) => forall i | 0 <= i < |items| :: NoFormatKey(items[i])
    case _ => true
  }

  /** The values left alone are exactly those without a `format` key at any depth. */
  lemma {:induction false} NormalizeFixpoint(v: Value)
    ensures Normalize(v) == v <==> NoFormatKey(v)
    decreases v
  {
    match v
    case Obj(fields) =>
      forall k | k in fields
        ensures Normalize(fields[k]) == fields[k] <==> NoFormatKey(fields[k])
      {
        NormalizeFixpoint(fields[k]);
      }
      var normalized := Normalize(v).fields;
      if NoFormatKey(v) {
        assert normalized == fields;
      } else if "format" in fields {
        assert "format" !in normalized;
      } else {
        var k :| k in fields && !NoFormatKey(fields[k]);
        assert normalized[k] != fields[k];
      }
    case Arr(items) =>
      var normalized := Normalize(v).items;
      forall i | 0 <= i < |items|
        ensures normalized[i] == items[i] <==> NoFormatKey(items[i])
      {
        NormalizeFixpoint(items[i]);
      }
      if NoFormatKey(v) {
        assert normalized == items;
      }
    case _ =>
  }

  lemma {:induction false} NormalizedHasNoFormat(v: Value)
    ensures NoFormatKey(Normalize(v))
    decreases v
  {
    match v
    case Obj(fields) =>
      forall k | k in fields { NormalizedHasNoFormat(fields[k]); }
    case Arr(items) =>
      forall i | 0 <= i < |items| { NormalizedHasNoFormat(items[i]); }
    case _ =>
  }

  /** Normalizing commutes with the catalog's checks: the result is a fixpoint, height does not
      grow, a schema the recursive check accepts stays accepted, and the response shape is judged
      the same before and after. */
  lemma NormalizationCommutesWithChecks(v: Value, depth: int, responseFormat: string)
    ensures Normalize(Normalize(v)) == Normalize(v)
    ensures Height(Normalize(v)) <= Height(v)
    ensures !TooDeep(v, depth) ==> !TooDeep(Normalize(v), depth)
    ensures !HasRemoteReference(v) ==> !HasRemoteReference(Normalize(v))
    ensures MatchesResponseFormat(responseFormat, Normalize(v)) == MatchesResponseFormat(responseFormat, v)
  {
    NormalizedHasNoFormat(v);
    NormalizeFixpoint(Normalize(v));
    forall p | At(Normalize(v), p).Some?
      ensures At(v, p).Some?
      ensures LocalReferences(At(v, p).value) ==> LocalReferences(At(Normalize(v), p).value)
    {
      NormalizedPaths(v, p);
    }
    var longest := LongestPath(Normalize(v));
    PathsAreShort(v, longest);
    MatchesAfterNormalize(v);
  }

  lemma GetAfterNormalize(v: Value, key: string)
    requires key != "format"
    ensures Normalize(v).Get(key) == Normalize(v.Get(key))
    ensures Normalize(v).Get(key).Obj? == v.Get(key).Obj?
    ensures forall s :: Normalize(v).Get(key) == Str(s) <==> v.Get(key) == Str(s)
    ensures forall name :: ContainsRequired(Normalize(v).Get(key), name) == ContainsRequired(v.Get(key), name)
  {
    forall name {
      ContainsRequiredAfterNormalize(v.Get(key), name);
    }
  }

  lemma ContainsRequiredAfterNormalize(v: Value, name: string)
    ensures ContainsRequired(Normalize(v), name) == ContainsRequired(v, name)
  {
    if v.Arr? {
      forall i | 0 <= i < |v.items|
        ensures Normalize(v).items[i] == Str(name) <==> v.items[i] == Str(name)
      {
      }
      if ContainsRequired(v, name) {
        var i :| 0 <= i < |v.items| && v.items[i] == Str(name);
        assert Normalize(v).items[i] == Str(name);
      }
    }
  }

  lemma SectionMatchesAfterNormalize(item: Value)
    ensures MatchesSectionSchema(Normalize(item)) == MatchesSectionSchema(item)
  {
    GetAfterNormalize(item, "type");
    GetAfterNormalize(item, "required");
    GetAfterNormalize(item, "properties");
    var properties := item.Get("properties");
    GetAfterNormalize(properties, "label");
    GetAfterNormalize(properties.Get("label"), "type");
  }

  lemma MatchesAfterNormalize(v: Value)
    ensures Normalize(v).Get("type") == Str("string") <==> v.Get("type") == Str("string")
    ensures MatchesStructuredSchema(Normalize(v)) == MatchesStructuredSchema(v)
  {
    GetAfterNormalize(v, "type");
    GetAfterNormalize(v, "required");
    GetAfterNormalize(v, "properties");
    var properties := v.Get("properties");
    GetAfterNormalize(properties, "title");
    GetAfterNormalize(properties, "sections");
    GetAfterNormalize(properties.Get("title"), "type");
    var sections := properties.Get("sections");
    GetAfterNormalize(sections, "type");
    GetAfterNormalize(sections, "items");
    SectionMatchesAfterNormalize(sections.Get("items"));
  }
}
