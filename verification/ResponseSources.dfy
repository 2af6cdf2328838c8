/** Where the sources of an OpenAI response come from. */
module ResponseSources {
  import opened Prelude
  import opened Text
  import opened SourceRules
  import opened Sources

  ghost predicate Searched(item: OutputItem, raw: Source) {
    item.kind == "web_search_call" && item.actionUrls.Some? && raw.title == "" && raw.url in item.actionUrls.value
  }

  ghost predicate Cited(item: OutputItem, raw: Source) {
    exists content, a :: content in item.contents && a in content.annotations && IsCitation(a, raw)
  }

  predicate IsCitation(a: Annotation, raw: Source) {
    a.kind == "url_citation" && raw == Source(a.title, a.url)
  }

  /** The item's search reported the URL, or one of its contents cites it under that title. */
  ghost predicate Offers(item: OutputItem, raw: Source) {
    Searched(item, raw) || Cited(item, raw)
  }

  lemma {:induction false} UrlOrigins(urls: seq<string>, rule: Rule, s: Source)
    ensures s in UrlSources(urls, rule) <==> exists url :: url in urls && rule(Source("", url)) == Some(s)
  {
    if urls == [] {
    } else {
      UrlOrigins(urls[1..], rule, s);
      assert forall url :: url in urls <==> url == urls[0] || url in urls[1..];
    }
  }

  lemma {:induction false} CitedOrigins(annotations: seq<Annotation>, rule: Rule, s: Source)
    ensures s in CitedSources(annotations, rule) <==> exists a :: a in annotations && CitedSource(a, rule) == Some(s)
  {
    if annotations == [] {
    } else {
      CitedOrigins(annotations[1..], rule, s);
      assert forall a :: a in annotations <==> a == annotations[0] || a in annotations[1..];
    }
  }

  lemma {:induction false} ContentOrigins(contents: seq<Content>, rule: Rule, s: Source)
    ensures s in ContentSources(contents, rule) <==>
              exists content, a :: content in contents && a in content.annotations && CitedSource(a, rule) == Some(s)
  {
    if contents == [] {
    } else {
      CitedOrigins(contents[0].annotations, rule, s);
      ContentOrigins(contents[1..], rule, s);
      assert forall content :: content in contents <==> content == contents[0] || content in contents[1..];
    }
  }

  lemma SearchOrigins(item: OutputItem, rule: Rule, s: Source)
    ensures s in SearchSources(item, rule) <==> exists raw :: Searched(item, raw) && rule(raw) == Some(s)
  {
    if item.kind == "web_search_call" && item.actionUrls.Some? {
      UrlOrigins(item.actionUrls.value, rule, s);
      if url :| url in item.actionUrls.value && rule(Source("", url)) == Some(s) {
        assert Searched(item, Source("", url));
      }
      if raw :| Searched(item, raw) && rule(raw) == Some(s) {
        assert raw == Source("", raw.url);
      }
    }
  }

  lemma CitationOrigins(item: OutputItem, rule: Rule, s: Source)
    ensures s in ContentSources(item.contents, rule) <==> exists raw :: Cited(item, raw) && rule(raw) == Some(s)
  {
    ContentOrigins(item.contents, rule, s);
    if content, a :| content in item.contents && a in content.annotations && CitedSource(a, rule) == Some(s) {
      assert IsCitation(a, Source(a.title, a.url));
      assert Cited(item, Source(a.title, a.url));
    }
    if raw :| Cited(item, raw) && rule(raw) == Some(s) {
      var content, a :| content in item.contents && a in content.annotations && IsCitation(a, raw);
      assert CitedSource(a, rule) == Some(s);
    }
  }

  lemma ItemOrigins(item: OutputItem, rule: Rule, s: Source)
    ensures s in ItemSources(item, rule) <==> exists raw :: Offers(item, raw) && rule(raw) == Some(s)
  {
    SearchOrigins(item, rule, s);
    CitationOrigins(item, rule, s);
  }

  /** The sources before capping are what the rule makes of what the items offer: all of it, and nothing
      else. */
  lemma {:induction false} OutputOrigins(output: seq<OutputItem>, rule: Rule, s: Source)
    ensures s in OutputSources(output, rule) <==>
              exists item, raw :: item in output && Offers(item, raw) && rule(raw) == Some(s)
  {
    if output == [] {
    } else {
      ItemOrigins(output[0], rule, s);
      OutputOrigins(output[1..], rule, s);
      assert forall item :: item in output <==> item == output[0] || item in output[1..];
    }
  }

  /** The rule for annotations makes `s` of `raw`: an https URL with a host, in canonical form. */
  ghost predicate AcceptedAs(s: Source, raw: Source, parse: UrlParser) {
    && SourceFromAnnotation(raw.title, raw.url, parse) == Some(s)
    && parse(raw.url).Some?
    && var url := parse(raw.url).value;
    url.scheme == "https" && url.host != "" && s.url == url.canonical
  }

  /** Every source collected from a response is an https URL in canonical form that a search reported or
      an item cites. */
  lemma ResponseSourceMeaning(output: seq<OutputItem>, parse: UrlParser, s: Source)
    ensures s in Cap(Distinct(OutputSources(output, AnnotationRule(parse)))) ==>
              && !HasControl(s.title)
              && exists item, raw :: item in output && Offers(item, raw) && AcceptedAs(s, raw, parse)
  {
    var rule := AnnotationRule(parse);
    DistinctKeepsFirst(OutputSources(output, rule), s);
    OutputOrigins(output, rule, s);
    if s in Cap(Distinct(OutputSources(output, rule))) {
      var item, raw :| item in output && Offers(item, raw) && rule(raw) == Some(s);
      AnnotationSourceMeaning(raw.title, raw.url, parse);
      assert AcceptedAs(s, raw, parse);
    }
  }

  // ---------- in which order ----------

  lemma {:induction false} UrlsConcat(a: seq<string>, b: seq<string>, rule: Rule)
    ensures UrlSources(a + b, rule) == UrlSources(a, rule) + UrlSources(b, rule)
  {
    if a == [] {
      assert a + b == b;
    } else {
      assert (a + b)[1..] == a[1..] + b;
      UrlsConcat(a[1..], b, rule);
    }
  }

  lemma UrlsInOrder(before: seq<string>, url: string, after: seq<string>, rule: Rule)
    ensures UrlSources(before + [url] + after, rule)
         == UrlSources(before, rule)
              + (if rule(Source("", url)).Some? then [rule(Source("", url)).value] else [])
              + UrlSources(after, rule)
  {
    UrlsConcat(before, [url], rule);
    UrlsConcat(before + [url], after, rule);
  }

  lemma {:induction false} CitationsConcat(a: seq<Annotation>, b: seq<Annotation>, rule: Rule)
    ensures CitedSources(a + b, rule) == CitedSources(a, rule) + CitedSources(b, rule)
  {
    if a == [] {
      assert a + b == b;
    } else {
      assert (a + b)[1..] == a[1..] + b;
      CitationsConcat(a[1..], b, rule);
    }
  }

  lemma CitationsInOrder(before: seq<Annotation>, a: Annotation, after: seq<Annotation>, rule: Rule)
    ensures CitedSources(before + [a] + after, rule)
         == CitedSources(before, rule)
              + (if a.kind == "url_citation" && rule(Source(a.title, a.url)).Some?
                 then [rule(Source(a.title, a.url)).value] else [])
              + CitedSources(after, rule)
  {
    CitationsConcat(before, [a], rule);
    CitationsConcat(before + [a], after, rule);
  }

  lemma {:induction false} ContentsConcat(a: seq<Content>, b: seq<Content>, rule: Rule)
    ensures ContentSources(a + b, rule) == ContentSources(a, rule) + ContentSources(b, rule)
  {
    if a == [] {
      assert a + b == b;
    } else {
      assert (a + b)[1..] == a[1..] + b;
      ContentsConcat(a[1..], b, rule);
    }
  }

  lemma ContentsInOrder(before: seq<Content>, content: Content, after: seq<Content>, rule: Rule)
    ensures ContentSources(before + [content] + after, rule)
         == ContentSources(before, rule) + CitedSources(content.annotations, rule) + ContentSources(after, rule)
  {
    ContentsConcat(before, [content], rule);
    ContentsConcat(before + [content], after, rule);
  }

  lemma {:induction false} OutputConcat(a: seq<OutputItem>, b: seq<OutputItem>, rule: Rule)
    ensures OutputSources(a + b, rule) == OutputSources(a, rule) + OutputSources(b, rule)
  {
    if a == [] {
      assert a + b == b;
    } else {
      assert (a + b)[1..] == a[1..] + b;
      OutputConcat(a[1..], b, rule);
    }
  }

  /** Within an item, what its search reports comes before what it cites. */
  lemma ItemInOrder(item: OutputItem, rule: Rule)
    ensures ItemSources(item, rule)
         == (if item.kind == "web_search_call" && item.actionUrls.Some?
             then UrlSources(item.actionUrls.value, rule) else [])
              + ContentSources(item.contents, rule)
  {
  }

  lemma OneItem(item: OutputItem, rule: Rule)
    ensures OutputSources([item], rule) == ItemSources(item, rule)
  {
    assert [item][1..] == [];
    assert ItemSources(item, rule) + [] == ItemSources(item, rule);
  }

  /** Items come in order. */
  lemma OutputInOrder(before: seq<OutputItem>, item: OutputItem, after: seq<OutputItem>, rule: Rule)
    ensures OutputSources(before + [item] + after, rule)
         == OutputSources(before, rule) + ItemSources(item, rule) + OutputSources(after, rule)
  {
    OutputConcat(before, [item], rule);
    OutputConcat(before + [item], after, rule);
    OneItem(item, rule);
  }
}
