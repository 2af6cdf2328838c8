/** The schema checks in terms of paths: what must be found where. */
module SchemaPaths {
  import opened Prelude
  import opened Json
  import opened SchemaCheck

  /** At the end of `path` stands the string `text`. */
  predicate HoldsText(v: Value, path: seq<Step>, text: string) {
    At(v, path) == Some(Str(text))
  }

  /** At the end of `path` stands an array with the string `name` among its items. */
  ghost predicate Lists(v: Value, path: seq<Step>, name: string) {
    exists i: nat :: At(v, path + [Index(i)]) == Some(Str(name))
  }

  /** A schema with a string title, and sections that are objects with a string label and a value. */
  ghost predicate StructuredByPaths(s: Value) {
    && HoldsText(s, [Key("type")], "object")
    && Lists(s, [Key("required")], "title") && Lists(s, [Key("required")], "sections")
    && HoldsText(s, [Key("properties"), Key("title"), Key("type")], "string")
    && HoldsText(s, [Key("properties"), Key("sections"), Key("type")], "array")
    && SectionByPaths(s, [Key("properties"), Key("sections"), Key("items")])
  }

  ghost predicate SectionByPaths(s: Value, item: seq<Step>) {
    && HoldsText(s, item + [Key("type")], "object")
    && Lists(s, item + [Key("required")], "label") && Lists(s, item + [Key("required")], "value")
    && HoldsText(s, item + [Key("properties"), Key("label"), Key("type")], "string")
  }

  /** The output schema that each response format asks for. */
  ghost predicate FormatByPaths(responseFormat: string, s: Value) {
    || (responseFormat == "TEXT" && HoldsText(s, [Key("type")], "string"))
    || (responseFormat == "MARKDOWN" && HoldsText(s, [Key("type")], "string"))
    || (responseFormat == "STRUCTURED" && StructuredByPaths(s))
    || responseFormat == "JSON"
  }

  lemma GetIsStep(v: Value, key: string, rest: seq<Step>)
    requires rest != []
    ensures At(v, [Key(key)] + rest) == At(v.Get(key), rest)
  {
    assert ([Key(key)] + rest)[1..] == rest;
  }

  lemma GetIsText(v: Value, key: string, text: string)
    ensures HoldsText(v, [Key(key)], text) <==> v.Get(key) == Str(text)
  {
    AtAppend(v, [], key);
    assert [] + [Key(key)] == [Key(key)];
  }

  lemma ContainsIsListed(v: Value, key: string, name: string)
    ensures Lists(v, [Key(key)], name) <==> ContainsRequired(v.Get(key), name)
  {
    var list := v.Get(key);
    forall i: nat
      ensures At(v, [Key(key)] + [Index(i)]) == Some(Str(name)) <==>
                list.Arr? && i < |list.items| && list.items[i] == Str(name)
    {
      GetIsStep(v, key, [Index(i)]);
      assert [Index(i)][1..] == [];
    }
    if ContainsRequired(list, name) {
      var i: nat :| i < |list.items| && list.items[i] == Str(name);
      assert At(v, [Key(key)] + [Index(i)]) == Some(Str(name));
    }
  }

  /** A value below `key` is found by the rest of the path. */
  lemma TextBelow(v: Value, key: string, rest: seq<Step>, text: string)
    requires rest != []
    ensures HoldsText(v, [Key(key)] + rest, text) <==> HoldsText(v.Get(key), rest, text)
  {
    GetIsStep(v, key, rest);
  }

  lemma ListBelow(v: Value, key: string, rest: seq<Step>, name: string)
    ensures Lists(v, [Key(key)] + rest, name) <==> Lists(v.Get(key), rest, name)
  {
    forall i: nat
      ensures At(v, [Key(key)] + rest + [Index(i)]) == At(v.Get(key), rest + [Index(i)])
    {
      GetIsStep(v, key, rest + [Index(i)]);
      assert [Key(key)] + rest + [Index(i)] == [Key(key)] + (rest + [Index(i)]);
    }
  }

  lemma SectionBelow(v: Value, key: string, rest: seq<Step>)
    ensures SectionByPaths(v, [Key(key)] + rest) <==> SectionByPaths(v.Get(key), rest)
  {
    var type_, required := [Key("type")], [Key("required")];
    var labelType := [Key("properties"), Key("label"), Key("type")];
    assert ([Key(key)] + rest) + type_ == [Key(key)] + (rest + type_);
    assert ([Key(key)] + rest) + required == [Key(key)] + (rest + required);
    assert ([Key(key)] + rest) + labelType == [Key(key)] + (rest + labelType);
    TextBelow(v, key, rest + type_, "object");
    ListBelow(v, key, rest + required, "label");
    ListBelow(v, key, rest + required, "value");
    TextBelow(v, key, rest + labelType, "string");
  }

  lemma TextTwoBelow(v: Value, key: string, key': string, last: string, text: string)
    ensures HoldsText(v, [Key(key), Key(key'), Key(last)], text) <==> v.Get(key).Get(key').Get(last) == Str(text)
  {
    assert [Key(key), Key(key'), Key(last)] == [Key(key)] + [Key(key'), Key(last)];
    assert [Key(key'), Key(last)] == [Key(key')] + [Key(last)];
    TextBelow(v, key, [Key(key'), Key(last)], text);
    TextBelow(v.Get(key), key', [Key(last)], text);
    GetIsText(v.Get(key).Get(key'), last, text);
  }

  lemma SectionIff(item: Value)
    ensures SectionByPaths(item, []) <==> MatchesSectionSchema(item)
  {
    assert [] + [Key("type")] == [Key("type")] && [] + [Key("required")] == [Key("required")];
    var labelType := [Key("properties"), Key("label"), Key("type")];
    assert [] + labelType == labelType;
    GetIsText(item, "type", "object");
    ContainsIsListed(item, "required", "label");
    ContainsIsListed(item, "required", "value");
    TextTwoBelow(item, "properties", "label", "type", "string");
  }

  /** The structured check passes exactly when the required paths are there. */
  lemma StructuredIff(s: Value)
    ensures MatchesStructuredSchema(s) <==> StructuredByPaths(s)
  {
    GetIsText(s, "type", "object");
    ContainsIsListed(s, "required", "title");
    ContainsIsListed(s, "required", "sections");
    TextTwoBelow(s, "properties", "title", "type", "string");
    TextTwoBelow(s, "properties", "sections", "type", "array");
    SectionAtItems(s);
  }

  lemma SectionAtItems(s: Value)
    ensures SectionByPaths(s, [Key("properties"), Key("sections"), Key("items")]) <==>
              MatchesSectionSchema(s.Get("properties").Get("sections").Get("items"))
  {
    var properties := s.Get("properties");
    assert [Key("properties"), Key("sections"), Key("items")] == [Key("properties")] + [Key("sections"), Key("items")];
    assert [Key("sections"), Key("items")] == [Key("sections")] + [Key("items")];
    assert [Key("items")] == [Key("items")] + [];
    SectionBelow(s, "properties", [Key("sections"), Key("items")]);
    SectionBelow(properties, "sections", [Key("items")]);
    SectionBelow(properties.Get("sections"), "items", []);
    SectionIff(properties.Get("sections").Get("items"));
  }

  /** Each response format accepts exactly the schemas it asks for: TEXT and MARKDOWN every schema of type
      string, JSON every schema, STRUCTURED those with the required paths, any other format none. */
  lemma ResponseFormatIff(responseFormat: string, s: Value)
    ensures MatchesResponseFormat(responseFormat, s) <==> FormatByPaths(responseFormat, s)
  {
    GetIsText(s, "type", "string");
    StructuredIff(s);
  }
}
