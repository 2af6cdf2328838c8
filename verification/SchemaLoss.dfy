/** Which verdicts change when `format` is removed where it is not a keyword. */
module SchemaLoss {
  import opened Json
  import opened SchemaNormalize
  import opened SchemaMeaning

  // ---------- a property called `format` ----------

  /** The schema has a property called `format`. */
  predicate HasFormatProperty(f: map<string, Value>) {
    "properties" in f && f["properties"].Obj? && "format" in f["properties"].fields
  }

  function WithoutFormatProperty(f: map<string, Value>): map<string, Value>
    requires HasFormatProperty(f)
  {
    f["properties" := Obj(f["properties"].fields - {"format"})]
  }

  lemma FormatPropertyIsDropped(f: map<string, Value>)
    requires HasFormatProperty(f)
    ensures Normalize(Obj(f)) == Normalize(Obj(WithoutFormatProperty(f)))
  {
    var g := WithoutFormatProperty(f);
    assert Normalize(f["properties"]).fields == Normalize(g["properties"]).fields;
    assert Normalize(Obj(f)).fields == Normalize(Obj(g)).fields;
  }

  /** All that the schema asks, except of the instance's property `format`. */
  predicate RestAccepts(f: map<string, Value>, x: Value) {
    && AcceptsHere(f, x, AnnotationOnly)
    && ("items" in f && x.Arr? ==> forall i | 0 <= i < |x.items| :: Accepts(f["items"], x.items[i], AnnotationOnly))
    && (x.Obj? ==>
          forall k | k in x.fields && k != "format" && PropertySchema(f, k).Some? ::
            Accepts(PropertySchema(f, k).value, x.fields[k], AnnotationOnly))
  }

  lemma FormatPropertySplits(f: map<string, Value>, x: Value)
    ensures Accepts(Obj(f), x, AnnotationOnly) <==>
              && RestAccepts(f, x)
              && (x.Obj? && "format" in x.fields && PropertySchema(f, "format").Some? ==>
                    Accepts(PropertySchema(f, "format").value, x.fields["format"], AnnotationOnly))
  {
  }

  lemma RestIgnoresFormatProperty(f: map<string, Value>, x: Value)
    requires HasFormatProperty(f)
    ensures RestAccepts(WithoutFormatProperty(f), x) <==> RestAccepts(f, x)
  {
    var g := WithoutFormatProperty(f);
    assert AcceptsHere(g, x, AnnotationOnly) <==> AcceptsHere(f, x, AnnotationOnly);
    assert forall k | k != "format" :: PropertySchema(g, k) == PropertySchema(f, k);
  }

  predicate AdditionalAccepts(f: map<string, Value>, x: Value) {
    "additionalProperties" in f ==> Accepts(f["additionalProperties"], x, AnnotationOnly)
  }

  /** When a property called `format` is the only fault of an object schema, normalization changes the
      verdict on an instance exactly when the instance has that property, the rest of the schema accepts
      it, and the lost subschema and the rule for additional properties disagree on the property. */
  lemma LostPropertyChangesVerdictIff(f: map<string, Value>, x: Value, formatHolds: (Value, Value) -> bool)
    requires HasFormatProperty(f) && FormatOnlyAsKeyword(Obj(WithoutFormatProperty(f)))
    ensures Accepts(Normalize(Obj(f)), x, formatHolds) != Accepts(Obj(f), x, AnnotationOnly) <==>
              && x.Obj? && "format" in x.fields
              && RestAccepts(f, x)
              && (Accepts(f["properties"].fields["format"], x.fields["format"], AnnotationOnly)
                  != AdditionalAccepts(f, x.fields["format"]))
  {
    var g := WithoutFormatProperty(f);
    FormatPropertyIsDropped(f);
    NormalizationPreservesMeaning(Obj(g), x, formatHolds);
    RestIgnoresFormatProperty(f, x);
    FormatPropertySplits(f, x);
    FormatPropertySplits(g, x);
  }

  /** An object schema with one property, called `format` and of type string, whose other
      properties must satisfy `additional`. */
  function FormatProperty(additional: bool): Value {
    Obj(map["properties" := Obj(map["format" := TEXT_SCHEMA]), "additionalProperties" := Bool(additional)])
  }

  lemma FormatPropertyMeaning(additional: bool, x: Value)
    requires x.Obj? && x.fields.Keys == {"format"}
    ensures var s := FormatProperty(additional);
      && !FormatOnlyAsKeyword(s)
      && (Accepts(s, x, AnnotationOnly) <==> x.fields["format"].Str?)
      && (Accepts(Normalize(s), x, AnnotationOnly) <==> additional)
  {
    var f := FormatProperty(additional).fields;
    var g := WithoutFormatProperty(f);
    assert f["additionalProperties"] == Bool(additional);
    assert g["properties"] == Obj(map[]);
    assert g.Keys == {"properties", "additionalProperties"};
    assert !KeywordClean("properties", f["properties"]);
    assert KeywordClean("properties", g["properties"]);
    assert KeywordClean("additionalProperties", g["additionalProperties"]);
    assert AcceptsHere(f, x, AnnotationOnly);
    TextSchemaMeaning(x.fields["format"], AnnotationOnly);
    FormatPropertySplits(f, x);
    LostPropertyChangesVerdictIff(f, x, AnnotationOnly);
  }

  /** A property that is itself called `format` is lost with the keyword, and the meaning changes in
      both directions: an instance the open schema rejects becomes accepted, and one the closed
      schema accepts becomes rejected. */
  lemma PropertyNamedFormatIsLost()
    ensures var s, x := FormatProperty(true), Obj(map["format" := Null]);
      && !FormatOnlyAsKeyword(s)
      && !Accepts(s, x, AnnotationOnly) && Accepts(Normalize(s), x, AnnotationOnly)
    ensures var s, x := FormatProperty(false), Obj(map["format" := Str("uri")]);
      && !FormatOnlyAsKeyword(s)
      && Accepts(s, x, AnnotationOnly) && !Accepts(Normalize(s), x, AnnotationOnly)
  {
    FormatPropertyMeaning(true, Obj(map["format" := Null]));
    FormatPropertyMeaning(false, Obj(map["format" := Str("uri")]));
  }

  // ---------- `format` inside listed values ----------

  /** The schema lists the values it admits. */
  predicate HasEnum(f: map<string, Value>) {
    "enum" in f && f["enum"].Arr?
  }

  lemma EnumSplits(f: map<string, Value>, x: Value, formatHolds: (Value, Value) -> bool)
    requires HasEnum(f)
    ensures Accepts(Obj(f), x, formatHolds) <==>
              Accepts(Obj(f - {"enum"}), x, formatHolds) && x in f["enum"].items
  {
    var g := f - {"enum"};
    assert AcceptsHere(f, x, formatHolds) <==> AcceptsHere(g, x, formatHolds) && x in f["enum"].items;
    assert forall k :: PropertySchema(g, k) == PropertySchema(f, k);
  }

  /** When `format` inside listed values is the only fault of a schema, normalization changes the verdict
      on an instance exactly when the rest of the schema accepts it and it is in one of the two lists,
      the original and the normalized, but not in the other. */
  lemma LostEnumChangesVerdictIff(f: map<string, Value>, x: Value, formatHolds: (Value, Value) -> bool)
    requires HasEnum(f) && FormatOnlyAsKeyword(Obj(f - {"enum"}))
    ensures Accepts(Normalize(Obj(f)), x, formatHolds) != Accepts(Obj(f), x, AnnotationOnly) <==>
              && Accepts(Obj(f - {"enum"}), x, AnnotationOnly)
              && (x in f["enum"].items) != (x in Normalize(f["enum"]).items)
  {
    var g := Normalize(Obj(f)).fields;
    assert g["enum"] == Normalize(f["enum"]);
    assert g - {"enum"} == Normalize(Obj(f - {"enum"})).fields;
    EnumSplits(f, x, AnnotationOnly);
    EnumSplits(g, x, formatHolds);
    NormalizationPreservesMeaning(Obj(f - {"enum"}), x, formatHolds);
  }

  /** A schema that admits one value. */
  function OnlyValue(v: Value): Value {
    Obj(map["enum" := Arr([v])])
  }

  /** A listed value with a `format` key at any depth is no longer admitted, and what is left of it is
      admitted instead. */
  lemma ListedValueIsLost(v: Value)
    requires !NoFormatKey(v)
    ensures Accepts(OnlyValue(v), v, AnnotationOnly) && !Accepts(Normalize(OnlyValue(v)), v, AnnotationOnly)
    ensures var rest := Normalize(v);
      !Accepts(OnlyValue(v), rest, AnnotationOnly) && Accepts(Normalize(OnlyValue(v)), rest, AnnotationOnly)
  {
    var f := OnlyValue(v).fields;
    NormalizeFixpoint(v);
    assert f - {"enum"} == map[];
    assert Normalize(f["enum"]).items == [Normalize(v)];
    forall x
      ensures Accepts(OnlyValue(v), x, AnnotationOnly) <==> x == v
      ensures Accepts(Normalize(OnlyValue(v)), x, AnnotationOnly) <==> x == Normalize(v)
    {
      EmptySchemaAccepts(x);
      EnumSplits(f, x, AnnotationOnly);
      LostEnumChangesVerdictIff(f, x, AnnotationOnly);
    }
  }

  lemma EmptySchemaAccepts(x: Value)
    ensures Accepts(Obj(map[]), x, AnnotationOnly) && FormatOnlyAsKeyword(Obj(map[]))
  {
    assert AcceptsHere(map[], x, AnnotationOnly);
  }
}
