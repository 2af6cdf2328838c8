/** What each keyword of a schema asks for on its own. */
module SchemaKeywords {
  import opened Prelude
  import opened Json
  import opened SchemaMeaning

  /** A schema with one keyword. */
  function Only(keyword: string, v: Value): Value {
    Obj(map[keyword := v])
  }

  lemma OnlySplits(keyword: string, v: Value, x: Value, formatHolds: (Value, Value) -> bool)
    ensures var f := map[keyword := v];
      Accepts(Only(keyword, v), x, formatHolds) <==>
        && AcceptsHere(f, x, formatHolds)
        && (keyword == "items" && x.Arr? ==> forall i | 0 <= i < |x.items| :: Accepts(v, x.items[i], formatHolds))
        && (x.Obj? ==> forall k | k in x.fields && PropertySchema(f, k).Some? ::
                         Accepts(PropertySchema(f, k).value, x.fields[k], formatHolds))
  {
    assert Only(keyword, v).fields == map[keyword := v];
  }

  function Whole(n: int): Value {
    Number(n as real)
  }

  /** The type names: objects, arrays, strings, booleans, null, numbers, and whole numbers. */
  lemma TypeMeaning(x: Value, formatHolds: (Value, Value) -> bool)
    ensures Accepts(Only("type", Str("object")), x, formatHolds) <==> exists fields :: x == Obj(fields)
    ensures Accepts(Only("type", Str("array")), x, formatHolds) <==> exists items :: x == Arr(items)
    ensures Accepts(Only("type", Str("string")), x, formatHolds) <==> exists s :: x == Str(s)
    ensures Accepts(Only("type", Str("boolean")), x, formatHolds) <==> x == Bool(true) || x == Bool(false)
    ensures Accepts(Only("type", Str("null")), x, formatHolds) <==> x == Null
    ensures Accepts(Only("type", Str("number")), x, formatHolds) <==> exists n :: x == Number(n)
    ensures Accepts(Only("type", Str("integer")), x, formatHolds) <==> exists n :: x == Whole(n)
  {
    TypeAlone("object", x, formatHolds);
    TypeAlone("array", x, formatHolds);
    TypeAlone("string", x, formatHolds);
    TypeAlone("boolean", x, formatHolds);
    TypeAlone("null", x, formatHolds);
    TypeAlone("number", x, formatHolds);
    TypeAlone("integer", x, formatHolds);
    match x
    case Obj(fields) => assert x == Obj(fields);
    case Arr(items) => assert x == Arr(items);
    case Str(s) => assert x == Str(s);
    case Number(n) =>
      assert x == Number(n);
      if n.Floor as real == n {
        assert x == Whole(n.Floor);
      }
    case _ =>
  }

  lemma TypeAlone(name: string, x: Value, formatHolds: (Value, Value) -> bool)
    ensures Accepts(Only("type", Str(name)), x, formatHolds) <==> TypeNamed(name, x)
  {
    OnlySplits("type", Str(name), x, formatHolds);
  }

  /** A list of types admits what one of them admits. */
  lemma TypeListMeaning(names: seq<Value>, x: Value, formatHolds: (Value, Value) -> bool)
    ensures Accepts(Only("type", Arr(names)), x, formatHolds) <==>
              exists name :: Str(name) in names && Accepts(Only("type", Str(name)), x, formatHolds)
  {
    OnlySplits("type", Arr(names), x, formatHolds);
    if i :| 0 <= i < |names| && names[i].Str? && TypeNamed(names[i].s, x) {
      assert Str(names[i].s) in names;
      TypeAlone(names[i].s, x, formatHolds);
    }
    if name :| Str(name) in names && Accepts(Only("type", Str(name)), x, formatHolds) {
      TypeAlone(name, x, formatHolds);
      var i :| 0 <= i < |names| && names[i] == Str(name);
    }
  }

  /** `enum` admits the listed values. */
  lemma EnumMeaning(v: Value, x: Value, formatHolds: (Value, Value) -> bool)
    requires v.Arr?
    ensures Accepts(Only("enum", v), x, formatHolds) <==> x in v.items
  {
    OnlySplits("enum", v, x, formatHolds);
  }

  /** `required` admits objects that have all the properties listed, and everything that is no object. */
  lemma RequiredMeaning(v: Value, x: Value, formatHolds: (Value, Value) -> bool)
    requires v.Arr?
    ensures Accepts(Only("required", v), x, formatHolds) <==>
              (x.Obj? ==> forall name | Str(name) in v.items :: name in x.fields)
  {
    OnlySplits("required", v, x, formatHolds);
    assert forall name :: Str(name) in v.items <==> exists i :: 0 <= i < |v.items| && v.items[i] == Str(name);
  }

  /** `items` admits arrays all of whose items the subschema admits, and everything that is no array. */
  lemma ItemsMeaning(v: Value, x: Value, formatHolds: (Value, Value) -> bool)
    ensures Accepts(Only("items", v), x, formatHolds) <==>
              (x.Arr? ==> forall y | y in x.items :: Accepts(v, y, formatHolds))
  {
    OnlySplits("items", v, x, formatHolds);
    if x.Arr? {
      assert forall i | 0 <= i < |x.items| :: x.items[i] in x.items;
    }
  }

  /** `properties` looks at the properties it names. */
  lemma PropertiesMeaning(v: Value, x: Value, formatHolds: (Value, Value) -> bool)
    requires v.Obj?
    ensures Accepts(Only("properties", v), x, formatHolds) <==>
              (x.Obj? ==> forall k | k in v.fields && k in x.fields ::
                            Accepts(v.fields[k], x.fields[k], formatHolds))
  {
    OnlySplits("properties", v, x, formatHolds);
  }

  /** `additionalProperties` alone looks at every property. */
  lemma AdditionalMeaning(v: Value, x: Value, formatHolds: (Value, Value) -> bool)
    ensures Accepts(Only("additionalProperties", v), x, formatHolds) <==>
              (x.Obj? ==> forall k | k in x.fields :: Accepts(v, x.fields[k], formatHolds))
  {
    OnlySplits("additionalProperties", v, x, formatHolds);
  }

  /** `format` asks what the reading of formats says. */
  lemma FormatMeaning(v: Value, x: Value, formatHolds: (Value, Value) -> bool)
    ensures Accepts(Only("format", v), x, formatHolds) <==> formatHolds(v, x)
  {
    OnlySplits("format", v, x, formatHolds);
  }

  /** Beside `properties`, `additionalProperties` looks at the properties that are not named there. */
  lemma AdditionalBesideProperties(named: map<string, Value>, v: Value, x: Value, formatHolds: (Value, Value) -> bool)
    requires x.Obj?
    ensures Accepts(Obj(map["properties" := Obj(named), "additionalProperties" := v]), x, formatHolds) <==>
              && (forall k | k in x.fields && k in named :: Accepts(named[k], x.fields[k], formatHolds))
              && forall k | k in x.fields && k !in named :: Accepts(v, x.fields[k], formatHolds)
  {
    var f := map["properties" := Obj(named), "additionalProperties" := v];
    assert Obj(f).fields == f;
    assert AcceptsHere(f, x, formatHolds);
    assert forall k :: PropertySchema(f, k) == if k in named then Some(named[k]) else Some(v);
  }
}
