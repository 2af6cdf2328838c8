/** The meaning of a schema, for the keywords the catalog uses, and what the catalog's rewrite and
    shape check guarantee about the instances a schema accepts. */
module SchemaMeaning {
  import opened Prelude
  import opened Json
  import opened SchemaCheck
  import opened SchemaNormalize

  predicate TypeNamed(name: string, x: Value) {
    match name
    case "object" => x.Obj?
    case "array" => x.Arr?
    case "string" => x.Str?
    case "boolean" => x.Bool?
    case "null" => x.Null?
    case "number" => x.Number?
    case "integer" => x.Number? && x.n.Floor as real == x.n
    case _ => false
  }

  predicate TypeMatches(t: Value, x: Value) {
    match t
    case Str(name) => TypeNamed(name, x)
    case Arr(names) => exists i | 0 <= i < |names| :: names[i].Str? && TypeNamed(names[i].s, x)
    case _ => true
  }

  predicate RequiredPresent(required: Value, keys: set<string>) {
    required.Arr? ==> forall i | 0 <= i < |required.items| && required.items[i].Str? :: required.items[i].s in keys
  }

  /** The keywords that look at the instance without descending into it. `formatHolds` says when a
      `format` value admits an instance. */
  predicate AcceptsHere(f: map<string, Value>, x: Value, formatHolds: (Value, Value) -> bool) {
    && ("type" in f ==> TypeMatches(f["type"], x))
    && ("enum" in f && f["enum"].Arr? ==> x in f["enum"].items)
    && ("format" in f ==> formatHolds(f["format"], x))
    && ("required" in f && x.Obj? ==> RequiredPresent(f["required"], x.fields.Keys))
  }

  /** The subschema that governs property `name`, if any. */
  function PropertySchema(f: map<string, Value>, name: string): Option<Value> {
    if "properties" in f && f["properties"].Obj? && name in f["properties"].fields then
      Some(f["properties"].fields[name])
    else if "additionalProperties" in f then
      Some(f["additionalProperties"])
    else
      None
  }

  /** Does schema `s` accept instance `x`? A keyword whose value has the wrong shape constrains
      nothing. */
  predicate Accepts(s: Value, x: Value, formatHolds: (Value, Value) -> bool)
    decreases s
  {
    match s
    case Bool(b) => b
    case Obj(f) =>
      && AcceptsHere(f, x, formatHolds)
      && ("items" in f && x.Arr? ==>
            forall i | 0 <= i < |x.items| :: Accepts(f["items"], x.items[i], formatHolds))
      && (x.Obj? ==>
            forall k | k in x.fields && PropertySchema(f, k).Some? ::
              Accepts(PropertySchema(f, k).value, x.fields[k], formatHolds))
    case _ => true
  }

  /** `format` as an annotation: it never rejects (section 7 of JSON Schema Validation, 2020-12). */
  function AnnotationOnly(format: Value, x: Value): bool { true }

  /** The intended rewrite: drop the `format` keyword of every subschema, and nothing else. */
  function Strip(s: Value): Value
    decreases s, 0
  {
    match s
    case Obj(f) => Obj(map k | k in f && k != "format" :: StripKeyword(k, f[k]))
    case _ => s
  }

  function StripKeyword(keyword: string, v: Value): Value
    decreases v, 1
  {
    if keyword == "properties" && v.Obj? then Obj(map n | n in v.fields :: Strip(v.fields[n]))
    else if keyword == "items" || keyword == "additionalProperties" then Strip(v)
    else v
  }

  lemma StripKeywords(f: map<string, Value>, name: string)
    ensures var g := Strip(Obj(f)).fields;
      && ("items" in g <==> "items" in f) && ("items" in f ==> g["items"] == Strip(f["items"]))
      && PropertySchema(g, name).Some? == PropertySchema(f, name).Some?
      && (PropertySchema(f, name).Some? ==> PropertySchema(g, name).value == Strip(PropertySchema(f, name).value))
  {
  }

  lemma StripOther(f: map<string, Value>, keyword: string)
    requires keyword !in {"properties", "items", "additionalProperties", "format"}
    ensures var g := Strip(Obj(f)).fields;
      && (keyword in g <==> keyword in f) && (keyword in f ==> g[keyword] == f[keyword])
  {
  }

  lemma StripHere(f: map<string, Value>, x: Value, formatHolds: (Value, Value) -> bool)
    ensures AcceptsHere(Strip(Obj(f)).fields, x, formatHolds) <==> AcceptsHere(f, x, AnnotationOnly)
    ensures AcceptsHere(f, x, formatHolds) ==> AcceptsHere(f, x, AnnotationOnly)
  {
    StripOther(f, "type");
    StripOther(f, "enum");
    StripOther(f, "required");
  }

  /** Accepting is monotone under the intended rewrite, and unchanged for annotations. */
  lemma {:induction false} StripPreservesMeaning(s: Value, x: Value, formatHolds: (Value, Value) -> bool)
    ensures Accepts(Strip(s), x, formatHolds) <==> Accepts(s, x, AnnotationOnly)
    ensures Accepts(s, x, formatHolds) ==> Accepts(Strip(s), x, formatHolds)
    decreases s
  {
    if s.Obj? {
      var f := s.fields;
      StripHere(f, x, formatHolds);
      StripKeywords(f, "");
      if x.Arr? && "items" in f {
        forall i | 0 <= i < |x.items| {
          StripPreservesMeaning(f["items"], x.items[i], formatHolds);
        }
      }
      if x.Obj? {
        forall k | k in x.fields
          ensures PropertySchema(Strip(s).fields, k).Some? == PropertySchema(f, k).Some?
          ensures PropertySchema(f, k).Some? ==>
            && PropertySchema(Strip(s).fields, k).value == Strip(PropertySchema(f, k).value)
            && (Accepts(Strip(PropertySchema(f, k).value), x.fields[k], formatHolds) <==>
               Accepts(PropertySchema(f, k).value, x.fields[k], AnnotationOnly))
            && (Accepts(PropertySchema(f, k).value, x.fields[k], formatHolds) ==>
               Accepts(Strip(PropertySchema(f, k).value), x.fields[k], formatHolds))
        {
          StripKeywords(f, k);
          if PropertySchema(f, k).Some? {
            StripPreservesMeaning(PropertySchema(f, k).value, x.fields[k], formatHolds);
          }
        }
      }
    }
  }

  /** `format` occurs in `s` only as a keyword of a subschema: never as a property name, and never
      inside `enum` or other data. */
  predicate FormatOnlyAsKeyword(s: Value)
    decreases s, 0
  {
    if s.Obj? then forall k | k in s.fields && k != "format" :: KeywordClean(k, s.fields[k])
    else NoFormatKey(s)
  }

  predicate KeywordClean(keyword: string, v: Value)
    decreases v, 1
  {
    if keyword == "properties" && v.Obj? then
      "format" !in v.fields && forall n | n in v.fields :: FormatOnlyAsKeyword(v.fields[n])
    else if keyword == "items" || keyword == "additionalProperties" then FormatOnlyAsKeyword(v)
    else NoFormatKey(v)
  }

  /** The code's rewrite is the intended one exactly when `format` occurs only as a keyword. */
  lemma {:induction false} NormalizeIsIntendedIff(s: Value)
    ensures Normalize(s) == Strip(s) <==> FormatOnlyAsKeyword(s)
    decreases s, 0
  {
    NormalizeFixpoint(s);
    if s.Obj? {
      var f, g, h := s.fields, Normalize(s).fields, Strip(s).fields;
      forall k | k in f && k != "format"
        ensures g[k] == h[k] <==> KeywordClean(k, f[k])
      {
        KeywordIsIntendedIff(k, f[k]);
      }
      if FormatOnlyAsKeyword(s) {
        assert g == h;
      }
    }
  }

  lemma {:induction false} KeywordIsIntendedIff(keyword: string, v: Value)
    ensures Normalize(v) == StripKeyword(keyword, v) <==> KeywordClean(keyword, v)
    decreases v, 1
  {
    NormalizeFixpoint(v);
    if keyword == "properties" && v.Obj? {
      var f, g, h := v.fields, Normalize(v).fields, StripKeyword(keyword, v).fields;
      forall n | n in f
        ensures Normalize(f[n]) == Strip(f[n]) <==> FormatOnlyAsKeyword(f[n])
      {
        NormalizeIsIntendedIff(f[n]);
      }
      if "format" in f {
        assert "format" in h && "format" !in g;
      } else if KeywordClean(keyword, v) {
        assert g == h;
      } else {
        var n :| n in f && !FormatOnlyAsKeyword(f[n]);
        assert g[n] != h[n];
      }
    } else {
      NormalizeIsIntendedIff(v);
    }
  }

  /** Normalization preserves meaning: as an annotation `format` can be removed without changing
      which instances are accepted; as an assertion removal only admits more. */
  lemma NormalizationPreservesMeaning(s: Value, x: Value, formatHolds: (Value, Value) -> bool)
    requires FormatOnlyAsKeyword(s)
    ensures Accepts(Normalize(s), x, formatHolds) <==> Accepts(s, x, AnnotationOnly)
    ensures Accepts(s, x, formatHolds) ==> Accepts(Normalize(s), x, formatHolds)
  {
    NormalizeIsIntendedIff(s);
    StripPreservesMeaning(s, x, formatHolds);
  }

  /** The shape a STRUCTURED response must have. */
  predicate HasStructuredShape(x: Value) {
    && x.Obj?
    && "title" in x.fields && x.fields["title"].Str?
    && "sections" in x.fields && x.fields["sections"].Arr?
    && forall i | 0 <= i < |x.fields["sections"].items| :: HasSectionShape(x.fields["sections"].items[i])
  }

  predicate HasSectionShape(x: Value) {
    && x.Obj?
    && "label" in x.fields && x.fields["label"].Str?
    && "value" in x.fields
  }

  lemma RequiredIsPresent(s: Value, x: Value, name: string, formatHolds: (Value, Value) -> bool)
    requires s.Obj? && ContainsRequired(s.Get("required"), name)
    requires x.Obj? && Accepts(s, x, formatHolds)
    ensures name in x.fields
    ensures s.Get("properties").Obj? && name in s.Get("properties").fields ==>
              Accepts(s.Get("properties").fields[name], x.fields[name], formatHolds)
  {
    var required := s.fields["required"];
    var i :| 0 <= i < |required.items| && required.items[i] == Str(name);
    assert required.items[i].Str?;
    assert PropertySchema(s.fields, name).Some? || !s.Get("properties").Obj? || name !in s.Get("properties").fields;
  }

  /** A schema the shape check lets through accepts only instances of the promised shape. */
  lemma StructuredSchemaForcesShape(s: Value, x: Value, formatHolds: (Value, Value) -> bool)
    requires MatchesStructuredSchema(s)
    requires Accepts(s, x, formatHolds)
    ensures HasStructuredShape(x)
  {
    RequiredIsPresent(s, x, "title", formatHolds);
    RequiredIsPresent(s, x, "sections", formatHolds);
    var sectionsSchema := s.Get("properties").Get("sections");
    var itemSchema := sectionsSchema.Get("items");
    var sections := x.fields["sections"];
    assert Accepts(sectionsSchema, sections, formatHolds);
    forall i | 0 <= i < |sections.items|
      ensures HasSectionShape(sections.items[i])
    {
      assert Accepts(itemSchema, sections.items[i], formatHolds);
      RequiredIsPresent(itemSchema, sections.items[i], "label", formatHolds);
      RequiredIsPresent(itemSchema, sections.items[i], "value", formatHolds);
    }
  }

  function Required(names: seq<string>): Value {
    Arr(seq(|names|, i requires 0 <= i < |names| => Str(names[i])))
  }

  /** An object schema with typed properties and required names. */
  function ObjectSchema(properties: map<string, Value>, names: seq<string>): Value {
    Obj(map["type" := Str("object"), "properties" := Obj(properties), "required" := Required(names)])
  }

  lemma ObjectSchemaMeaning(properties: map<string, Value>, names: seq<string>, x: Value,
        formatHolds: (Value, Value) -> bool)
    ensures Accepts(ObjectSchema(properties, names), x, formatHolds) <==>
              && x.Obj?
              && (forall i | 0 <= i < |names| :: names[i] in x.fields)
              && forall k | k in x.fields && k in properties :: Accepts(properties[k], x.fields[k], formatHolds)
  {
    var f := ObjectSchema(properties, names).fields;
    assert f.Keys == {"type", "properties", "required"};
    if x.Obj? {
      assert forall k :: PropertySchema(f, k) == if k in properties then Some(properties[k]) else None;
      assert RequiredPresent(f["required"], x.fields.Keys) <==> forall i | 0 <= i < |names| :: names[i] in x.fields by {
        assert forall i | 0 <= i < |names| :: f["required"].items[i] == Str(names[i]);
      }
    }
  }

  /** The least demanding schema that passes the shape check. */
  const TEXT_SCHEMA := Obj(map["type" := Str("string")])
  const SECTION_SCHEMA := ObjectSchema(map["label" := TEXT_SCHEMA], ["label", "value"])
  const SECTIONS_SCHEMA := Obj(map["type" := Str("array"), "items" := SECTION_SCHEMA])
  const STRUCTURED_SCHEMA :=
    ObjectSchema(map["title" := TEXT_SCHEMA, "sections" := SECTIONS_SCHEMA], ["title", "sections"])

  lemma TextSchemaMeaning(x: Value, formatHolds: (Value, Value) -> bool)
    ensures Accepts(TEXT_SCHEMA, x, formatHolds) <==> x.Str?
  {
    assert AcceptsHere(TEXT_SCHEMA.fields, x, formatHolds) <==> x.Str?;
  }

  lemma SectionSchemaMeaning(x: Value, formatHolds: (Value, Value) -> bool)
    ensures Accepts(SECTION_SCHEMA, x, formatHolds) <==> HasSectionShape(x)
  {
    var names := ["label", "value"];
    ObjectSchemaMeaning(map["label" := TEXT_SCHEMA], names, x, formatHolds);
    assert names[0] == "label" && names[1] == "value";
    if x.Obj? && "label" in x.fields {
      TextSchemaMeaning(x.fields["label"], formatHolds);
    }
  }

  lemma SectionsSchemaMeaning(x: Value, formatHolds: (Value, Value) -> bool)
    ensures Accepts(SECTIONS_SCHEMA, x, formatHolds) <==>
              x.Arr? && forall i | 0 <= i < |x.items| :: HasSectionShape(x.items[i])
  {
    assert AcceptsHere(SECTIONS_SCHEMA.fields, x, formatHolds) <==> x.Arr?;
    if x.Arr? {
      forall i | 0 <= i < |x.items| {
        SectionSchemaMeaning(x.items[i], formatHolds);
      }
    }
  }

  /** The promised shape is all that follows from the check: this schema passes it and accepts exactly
      the instances of that shape. */
  lemma StructuredShapeIsTight(x: Value, formatHolds: (Value, Value) -> bool)
    ensures MatchesStructuredSchema(STRUCTURED_SCHEMA)
    ensures Accepts(STRUCTURED_SCHEMA, x, formatHolds) <==> HasStructuredShape(x)
  {
    var names := ["title", "sections"];
    ObjectSchemaMeaning(map["title" := TEXT_SCHEMA, "sections" := SECTIONS_SCHEMA], names, x, formatHolds);
    assert names[0] == "title" && names[1] == "sections";
    if x.Obj? && "title" in x.fields && "sections" in x.fields {
      TextSchemaMeaning(x.fields["title"], formatHolds);
      SectionsSchemaMeaning(x.fields["sections"], formatHolds);
    }
    StructuredSchemaMatches();
  }

  lemma StructuredSchemaMatches()
    ensures MatchesStructuredSchema(STRUCTURED_SCHEMA)
  {
    assert Required(["title", "sections"]).items == [Str("title"), Str("sections")];
    assert Required(["label", "value"]).items == [Str("label"), Str("value")];
    assert MatchesSectionSchema(SECTION_SCHEMA);
  }

  /** What each response format promises about accepted outputs, still after normalization. */
  lemma ResponseFormatForcesShape(responseFormat: string, s: Value, x: Value, formatHolds: (Value, Value) -> bool)
    requires MatchesResponseFormat(responseFormat, s)
    requires Accepts(s, x, formatHolds) || Accepts(Normalize(s), x, formatHolds)
    ensures responseFormat in {"TEXT", "MARKDOWN", "STRUCTURED", "JSON"}
    ensures responseFormat == "TEXT" || responseFormat == "MARKDOWN" ==> x.Str?
    ensures responseFormat == "STRUCTURED" ==> HasStructuredShape(x)
  {
    MatchesAfterNormalize(s);
    var used := if Accepts(s, x, formatHolds) then s else Normalize(s);
    if responseFormat == "STRUCTURED" {
      StructuredSchemaForcesShape(used, x, formatHolds);
    } else if responseFormat == "TEXT" || responseFormat == "MARKDOWN" {
      assert used.Get("type") == Str("string");
    }
  }
}
