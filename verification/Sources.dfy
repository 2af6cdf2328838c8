/** Collection of web sources: from an OpenAI response, and from the results of dependencies. The
    loops are the same whatever rule accepts and rewrites a single source. */
module Sources {
  import opened Prelude
  import opened SourceRules

  const MAXIMUM_SOURCES := 5

  type Rule = Source -> Option<Source>

  // ---------- keeping the first source of each URL ----------

  function Urls(sources: seq<Source>): set<string> {
    set i | 0 <= i < |sources| :: sources[i].url
  }

  /** The sources of `sources` whose URL has not occurred before. */
  function Distinct(sources: seq<Source>): seq<Source> {
    if sources == [] then []
    else
      var n := |sources| - 1;
      var kept := Distinct(sources[..n]);
      if sources[n].url in Urls(sources[..n]) then kept else kept + [sources[n]]
  }

  function Cap(sources: seq<Source>): seq<Source> {
    if |sources| <= MAXIMUM_SOURCES then sources else sources[..MAXIMUM_SOURCES]
  }

  predicate DistinctUrls(sources: seq<Source>) {
    forall i, j | 0 <= i < j < |sources| :: sources[i].url != sources[j].url
  }

  /** Source `s` is the first one in `sources` with its URL. */
  predicate IsFirst(s: Source, sources: seq<Source>) {
    exists i | 0 <= i < |sources| :: sources[i] == s && s.url !in Urls(sources[..i])
  }

  lemma NewUrlKeepsDistinct(sources: seq<Source>, s: Source)
    requires DistinctUrls(sources) && s.url !in Urls(sources)
    ensures DistinctUrls(sources + [s])
  {
    assert forall i | 0 <= i < |sources| :: sources[i].url in Urls(sources);
  }

  lemma {:induction false} DistinctMeaning(sources: seq<Source>)
    ensures DistinctUrls(Distinct(sources))
    ensures Urls(Distinct(sources)) == Urls(sources)
    ensures |Distinct(sources)| == |Urls(sources)|
  {
    if sources == [] {
    } else {
      var n := |sources| - 1;
      var before, last := sources[..n], sources[n];
      DistinctMeaning(before);
      UrlsAppend(before, last);
      assert sources == before + [last];
      if last.url !in Urls(before) {
        UrlsAppend(Distinct(before), last);
        NewUrlKeepsDistinct(Distinct(before), last);
      }
    }
  }

  lemma {:induction false} DistinctKeepsFirst(sources: seq<Source>, s: Source)
    ensures s in Distinct(sources) <==> IsFirst(s, sources)
  {
    if sources == [] {
    } else {
      var n := |sources| - 1;
      var before := sources[..n];
      DistinctKeepsFirst(before, s);
      assert forall i | 0 <= i < n :: before[i] == sources[i] && before[..i] == sources[..i];
      if IsFirst(s, before) {
        var i :| 0 <= i < n && before[i] == s && s.url !in Urls(before[..i]);
        assert sources[i] == s && s.url !in Urls(sources[..i]);
      }
      if IsFirst(s, sources) && s !in Distinct(before) {
        var i :| 0 <= i < |sources| && sources[i] == s && s.url !in Urls(sources[..i]);
        assert i == n;
      }
    }
  }

  lemma UrlsAppend(sources: seq<Source>, s: Source)
    ensures Urls(sources + [s]) == Urls(sources) + {s.url}
  {
    var more := sources + [s];
    forall url | url in Urls(sources) + {s.url}
      ensures url in Urls(more)
    {
      if url in Urls(sources) {
        var i :| 0 <= i < |sources| && sources[i].url == url;
        assert more[i].url == url;
      } else {
        assert more[|sources|].url == url;
      }
    }
  }

  lemma {:induction false} DistinctPrefix(a: seq<Source>, b: seq<Source>)
    requires a <= b
    ensures Distinct(a) <= Distinct(b)
    decreases |b|
  {
    if |a| == |b| {
      assert a == b;
    } else {
      DistinctPrefix(a, b[..|b| - 1]);
    }
  }

  /** Once five are kept, whatever follows cannot change the capped answer. */
  lemma FullStaysFull(a: seq<Source>, b: seq<Source>)
    requires a <= b && |Distinct(a)| == MAXIMUM_SOURCES
    ensures Cap(Distinct(b)) == Distinct(a)
  {
    DistinctPrefix(a, b);
  }

  /** The slice and the seen map that `appendSource` grows together. */
  class SourceList {
    var sources: seq<Source>
    var seen: set<string>
    ghost var offered: seq<Source>

    ghost predicate Valid()
      reads this
    {
      && seen == Urls(offered)
      && sources == Distinct(offered)
      && |sources| < MAXIMUM_SOURCES
    }

    constructor ()
      ensures Valid() && offered == []
    {
      sources, seen, offered := [], {}, [];
    }

    method Append(source: Source)
      requires Valid()
      modifies this
      ensures offered == old(offered) + [source]
      ensures sources == Distinct(offered) && seen == Urls(offered)
      ensures |sources| <= MAXIMUM_SOURCES
    {
      UrlsAppend(offered, source);
      assert (offered + [source])[..|offered|] == offered;
      if source.url !in seen {
        seen := seen + {source.url};
        sources := sources + [source];
      }
      offered := offered + [source];
    }
  }

  /** The list stopped at five sources somewhere inside `all`. */
  ghost predicate FullWithin(list: SourceList, all: seq<Source>)
    reads list
  {
    && |list.sources| == MAXIMUM_SOURCES
    && list.sources == Distinct(list.offered)
    && list.offered <= all
  }

  function OptionSeq<T>(o: Option<T>): seq<T> {
    if o.Some? then [o.value] else []
  }

  // ---------- sources of an OpenAI response ----------

  datatype Annotation = Annotation(kind: string, title: string, url: string)

  datatype Content = Content(annotations: seq<Annotation>)

  /** One output item; `actionUrls` are the source URLs decoded from its raw JSON, if that decodes. */
  datatype OutputItem = OutputItem(kind: string, actionUrls: Option<seq<string>>, contents: seq<Content>)

  function UrlSources(urls: seq<string>, rule: Rule): seq<Source> {
    if urls == [] then []
    else OptionSeq(rule(Source("", urls[0]))) + UrlSources(urls[1..], rule)
  }

  function SearchSources(item: OutputItem, rule: Rule): seq<Source> {
    if item.kind == "web_search_call" && item.actionUrls.Some? then UrlSources(item.actionUrls.value, rule) else []
  }

  function CitedSource(a: Annotation, rule: Rule): Option<Source> {
    if a.kind == "url_citation" then rule(Source(a.title, a.url)) else None
  }

  function CitedSources(annotations: seq<Annotation>, rule: Rule): seq<Source> {
    if annotations == [] then []
    else OptionSeq(CitedSource(annotations[0], rule)) + CitedSources(annotations[1..], rule)
  }

  function ContentSources(contents: seq<Content>, rule: Rule): seq<Source> {
    if contents == [] then []
    else CitedSources(contents[0].annotations, rule) + ContentSources(contents[1..], rule)
  }

  /** The valid sources of one item, in order: those of its search, then those it cites. */
  function ItemSources(item: OutputItem, rule: Rule): seq<Source> {
    SearchSources(item, rule) + ContentSources(item.contents, rule)
  }

  function OutputSources(output: seq<OutputItem>, rule: Rule): seq<Source> {
    if output == [] then [] else ItemSources(output[0], rule) + OutputSources(output[1..], rule)
  }

  method SourcesFromWebSearchCall(item: OutputItem, rule: Rule) returns (sources: seq<Source>)
    ensures sources == SearchSources(item, rule)
  {
    sources := [];
    if item.kind != "web_search_call" || item.actionUrls.None? {
      return;
    }
    var urls := item.actionUrls.value;
    for i := 0 to |urls|
      invariant sources + UrlSources(urls[i..], rule) == UrlSources(urls, rule)
    {
      assert urls[i..][1..] == urls[i + 1..];
      ghost var upTo := sources + OptionSeq(rule(Source("", urls[i])));
      assert upTo + UrlSources(urls[i + 1..], rule) == UrlSources(urls, rule);
      var verified := rule(Source("", urls[i]));
      if verified.Some? {
        sources := sources + [verified.value];
      }
      assert sources == upTo;
    }
  }

  /** The loop over the sources of one item's search. */
  method AppendSearched(list: SourceList, searched: seq<Source>) returns (full: bool)
    requires list.Valid()
    modifies list
    ensures !full ==> list.Valid() && list.offered == old(list.offered) + searched
    ensures full ==> FullWithin(list, old(list.offered) + searched)
  {
    for j := 0 to |searched|
      invariant list.Valid()
      invariant list.offered == old(list.offered) + searched[..j]
    {
      list.Append(searched[j]);
      assert list.offered == old(list.offered) + searched[..j + 1];
      if |list.sources| == MAXIMUM_SOURCES {
        return true;
      }
    }
    return false;
  }

  /** The innermost loop, over the annotations of one content. */
  method AppendCited(list: SourceList, annotations: seq<Annotation>, rule: Rule) returns (full: bool)
    requires list.Valid()
    modifies list
    ensures !full ==> list.Valid() && list.offered == old(list.offered) + CitedSources(annotations, rule)
    ensures full ==> FullWithin(list, old(list.offered) + CitedSources(annotations, rule))
  {
    ghost var end := list.offered + CitedSources(annotations, rule);
    for i := 0 to |annotations|
      invariant list.Valid()
      invariant list.offered + CitedSources(annotations[i..], rule) == end
    {
      assert annotations[i..][1..] == annotations[i + 1..];
      var annotation := annotations[i];
      ghost var upTo := list.offered + OptionSeq(CitedSource(annotation, rule));
      assert upTo + CitedSources(annotations[i + 1..], rule) == end;
      if annotation.kind != "url_citation" {
        continue;
      }
      var source := rule(Source(annotation.title, annotation.url));
      if source.None? {
        continue;
      }
      list.Append(source.value);
      assert list.offered == upTo;
      if |list.sources| == MAXIMUM_SOURCES {
        return true;
      }
    }
    return false;
  }

  /** The loop over the contents of one item. */
  method AppendContents(list: SourceList, contents: seq<Content>, rule: Rule) returns (full: bool)
    requires list.Valid()
    modifies list
    ensures !full ==> list.Valid() && list.offered == old(list.offered) + ContentSources(contents, rule)
    ensures full ==> FullWithin(list, old(list.offered) + ContentSources(contents, rule))
  {
    ghost var end := list.offered + ContentSources(contents, rule);
    for k := 0 to |contents|
      invariant list.Valid()
      invariant list.offered + ContentSources(contents[k..], rule) == end
    {
      assert contents[k..][1..] == contents[k + 1..];
      ghost var upTo := list.offered + CitedSources(contents[k].annotations, rule);
      assert upTo + ContentSources(contents[k + 1..], rule) == end;
      full := AppendCited(list, contents[k].annotations, rule);
      if full {
        return true;
      }
    }
    return false;
  }

  /** The two inner loops of one item. */
  method AppendItem(list: SourceList, item: OutputItem, rule: Rule) returns (full: bool)
    requires list.Valid()
    modifies list
    ensures !full ==> list.Valid() && list.offered == old(list.offered) + ItemSources(item, rule)
    ensures full ==> FullWithin(list, old(list.offered) + ItemSources(item, rule))
  {
    var searched := SourcesFromWebSearchCall(item, rule);
    ghost var cited := ContentSources(item.contents, rule);
    ghost var before := list.offered;
    assert before + searched + cited == before + ItemSources(item, rule);
    full := AppendSearched(list, searched);
    if !full {
      full := AppendContents(list, item.contents, rule);
    }
  }

  lemma OutputStep(offered: seq<Source>, output: seq<OutputItem>, i: nat, rule: Rule)
    requires i < |output|
    ensures offered + OutputSources(output[i..], rule)
         == offered + ItemSources(output[i], rule) + OutputSources(output[i + 1..], rule)
  {
    assert output[i..][1..] == output[i + 1..];
  }

  /** The nested loops with their early returns compute the simple form: all valid sources in order,
      the first of each URL, at most five. */
  method SourcesFrom(output: seq<OutputItem>, rule: Rule) returns (sources: seq<Source>)
    ensures sources == Cap(Distinct(OutputSources(output, rule)))
  {
    var list := new SourceList();
    ghost var all := OutputSources(output, rule);
    assert output[0..] == output;
    for i := 0 to |output|
      invariant list.Valid() && fresh(list)
      invariant list.offered + OutputSources(output[i..], rule) == all
    {
      OutputStep(list.offered, output, i, rule);
      ghost var upTo := list.offered + ItemSources(output[i], rule);
      var full := AppendItem(list, output[i], rule);
      if full {
        assert upTo <= all;
        FullStaysFull(list.offered, all);
        return list.sources;
      }
    }
    assert list.offered == all;
    return list.sources;
  }

  // ---------- sources of dependency results ----------

  /** A dependency's output: not an object, or an object with its decoded `sources`. */
  datatype DependencyOutput = NotAnObject | Object(sources: seq<Source>)

  function VerifiedSources(sources: seq<Source>, rule: Rule): seq<Source> {
    if sources == [] then []
    else OptionSeq(rule(sources[0])) + VerifiedSources(sources[1..], rule)
  }

  /** The verified sources of one dependency, in order. */
  function VerifiedOf(output: DependencyOutput, rule: Rule): seq<Source> {
    if output.NotAnObject? then [] else VerifiedSources(output.sources, rule)
  }

  /** The URLs of all sources that dependencies report and the rule accepts. */
  function ReportedUrls(results: map<string, DependencyOutput>, rule: Rule): set<string> {
    set key, raw | key in results && results[key].Object? && raw in results[key].sources && rule(raw).Some? ::
      rule(raw).value.url
  }

  /** `order` lists every key exactly once. */
  predicate IsOrder(order: seq<string>, keys: set<string>) {
    && (forall i | 0 <= i < |order| :: order[i] in keys)
    && (forall key | key in keys :: key in order)
    && forall i, j | 0 <= i < j < |order| :: order[i] != order[j]
  }

  /** The verified sources of all dependencies, in one iteration order of the map. */
  function OrderedSources(order: seq<string>, results: map<string, DependencyOutput>, rule: Rule): seq<Source>
    requires forall i | 0 <= i < |order| :: order[i] in results
  {
    if order == [] then []
    else
      var n := |order| - 1;
      OrderedSources(order[..n], results, rule) + VerifiedOf(results[order[n]], rule)
  }

  /** The answer for one iteration order of the map. */
  function Collected(order: seq<string>, results: map<string, DependencyOutput>, rule: Rule): seq<Source>
    requires IsOrder(order, results.Keys)
  {
    Cap(Distinct(OrderedSources(order, results, rule)))
  }

  /** The inner loop, over the decoded sources of one dependency. */
  method AppendVerified(list: SourceList, decoded: seq<Source>, rule: Rule) returns (full: bool)
    requires list.Valid()
    modifies list
    ensures !full ==> list.Valid() && list.offered == old(list.offered) + VerifiedSources(decoded, rule)
    ensures full ==> FullWithin(list, old(list.offered) + VerifiedSources(decoded, rule))
  {
    ghost var end := list.offered + VerifiedSources(decoded, rule);
    for j := 0 to |decoded|
      invariant list.Valid()
      invariant list.offered + VerifiedSources(decoded[j..], rule) == end
    {
      assert decoded[j..][1..] == decoded[j + 1..];
      ghost var upTo := list.offered + OptionSeq(rule(decoded[j]));
      assert upTo + VerifiedSources(decoded[j + 1..], rule) == end;
      var source := rule(decoded[j]);
      if source.None? {
        continue;
      }
      list.Append(source.value);
      assert list.offered == upTo;
      if |list.sources| == MAXIMUM_SOURCES {
        return true;
      }
    }
    return false;
  }

  /** `visited` lists, without repetition, exactly the keys that are not in `rest`. */
  ghost predicate Visited(visited: seq<string>, rest: set<string>, keys: set<string>) {
    && rest <= keys
    && (forall i | 0 <= i < |visited| :: visited[i] in keys && visited[i] !in rest)
    && (forall key | key in keys && key !in rest :: key in visited)
    && forall i, j | 0 <= i < j < |visited| :: visited[i] != visited[j]
  }

  lemma VisitNext(visited: seq<string>, key: string, rest: set<string>, keys: set<string>)
    requires Visited(visited, rest, keys) && key in rest
    ensures Visited(visited + [key], rest - {key}, keys)
  {
    var more := visited + [key];
    assert more[|visited|] == key;
    forall k | k in keys && k !in rest - {key}
      ensures k in more
    {
      if k != key {
        assert k in visited;
      }
    }
  }

  /** What is left to visit can be visited in some order. */
  lemma {:induction false} VisitTheRest(visited: seq<string>, rest: set<string>, results: map<string, DependencyOutput>,
        rule: Rule)
    returns (order: seq<string>)
    requires Visited(visited, rest, results.Keys)
    ensures IsOrder(order, results.Keys)
    ensures OrderedSources(visited, results, rule) <= OrderedSources(order, results, rule)
    ensures rest == {} ==> order == visited
    decreases |rest|
  {
    if rest == {} {
      order := visited;
    } else {
      var key :| key in rest;
      VisitNext(visited, key, rest, results.Keys);
      assert (visited + [key])[..|visited|] == visited;
      order := VisitTheRest(visited + [key], rest - {key}, results, rule);
    }
  }

  /** Collection over a map visited in an arbitrary order, with early return at five sources. */
  method SourcesFromDependencies(results: map<string, DependencyOutput>, rule: Rule) returns (sources: seq<Source>)
    ensures exists order :: IsOrder(order, results.Keys) && sources == Collected(order, results, rule)
  {
    var list := new SourceList();
    ghost var visited: seq<string> := [];
    var keys := results.Keys;
    while keys != {}
      invariant list.Valid() && fresh(list)
      invariant Visited(visited, keys, results.Keys)
      invariant list.offered == OrderedSources(visited, results, rule)
    {
      var key :| key in keys;
      VisitNext(visited, key, keys, results.Keys);
      assert (visited + [key])[..|visited|] == visited;
      keys := keys - {key};
      visited := visited + [key];
      if results[key].NotAnObject? {
        continue;
      }
      var full := AppendVerified(list, results[key].sources, rule);
      if full {
        ghost var order := VisitTheRest(visited, keys, results, rule);
        FullStaysFull(list.offered, OrderedSources(order, results, rule));
        return list.sources;
      }
    }
    ghost var order := VisitTheRest(visited, keys, results, rule);
    return list.sources;
  }

  lemma UrlsOfConcat(a: seq<Source>, b: seq<Source>)
    ensures Urls(a + b) == Urls(a) + Urls(b)
  {
    var c := a + b;
    forall url | url in Urls(a) + Urls(b)
      ensures url in Urls(c)
    {
      if url in Urls(a) {
        var i :| 0 <= i < |a| && a[i].url == url;
        assert c[i].url == url;
      } else {
        var i :| 0 <= i < |b| && b[i].url == url;
        assert c[|a| + i].url == url;
      }
    }
  }

  lemma {:induction false} OrderedOrigins(order: seq<string>, results: map<string, DependencyOutput>, rule: Rule)
    requires forall i | 0 <= i < |order| :: order[i] in results
    ensures forall url :: url in Urls(OrderedSources(order, results, rule)) <==>
              exists i | 0 <= i < |order| :: url in Urls(VerifiedOf(results[order[i]], rule))
    ensures forall s | s in OrderedSources(order, results, rule) ::
              exists key :: key in results && s in VerifiedOf(results[key], rule)
  {
    if order == [] {
    } else {
      var n := |order| - 1;
      OrderedOrigins(order[..n], results, rule);
      assert forall i | 0 <= i < n :: order[..n][i] == order[i];
      UrlsOfConcat(OrderedSources(order[..n], results, rule), VerifiedOf(results[order[n]], rule));
      assert order[n] in results;
    }
  }

  lemma {:induction false} VerifiedSourcesIff(sources: seq<Source>, rule: Rule, s: Source)
    ensures s in VerifiedSources(sources, rule) <==> exists raw :: raw in sources && rule(raw) == Some(s)
  {
    if sources == [] {
    } else {
      VerifiedSourcesIff(sources[1..], rule, s);
      assert forall raw :: raw in sources <==> raw == sources[0] || raw in sources[1..];
    }
  }

  /** The verified sources of a dependency are exactly what the rule makes of the sources it reports. */
  lemma VerifiedIff(output: DependencyOutput, rule: Rule, s: Source)
    ensures s in VerifiedOf(output, rule) <==>
              output.Object? && exists raw :: raw in output.sources && rule(raw) == Some(s)
  {
    if output.Object? {
      VerifiedSourcesIff(output.sources, rule, s);
    }
  }

  lemma {:induction false} VerifiedConcat(a: seq<Source>, b: seq<Source>, rule: Rule)
    ensures VerifiedSources(a + b, rule) == VerifiedSources(a, rule) + VerifiedSources(b, rule)
  {
    if a == [] {
      assert a + b == b;
    } else {
      assert (a + b)[1..] == a[1..] + b;
      VerifiedConcat(a[1..], b, rule);
    }
  }

  /** They come in the order in which they are reported. */
  lemma VerifiedInOrder(before: seq<Source>, raw: Source, after: seq<Source>, rule: Rule)
    ensures VerifiedOf(Object(before + [raw] + after), rule)
         == VerifiedOf(Object(before), rule)
              + (if rule(raw).Some? then [rule(raw).value] else [])
              + VerifiedOf(Object(after), rule)
  {
    VerifiedConcat(before, [raw], rule);
    VerifiedConcat(before + [raw], after, rule);
  }

  /** Source `s` is what the rule makes of a source some dependency reported. */
  ghost predicate Reported(s: Source, results: map<string, DependencyOutput>, rule: Rule) {
    exists key, raw :: key in results && results[key].Object? && raw in results[key].sources && rule(raw) == Some(s)
  }

  lemma ReportedIsVerified(results: map<string, DependencyOutput>, rule: Rule, url: string)
    ensures url in ReportedUrls(results, rule) <==>
              exists key :: key in results && url in Urls(VerifiedOf(results[key], rule))
  {
    if url in ReportedUrls(results, rule) {
      var key, raw :| key in results && results[key].Object? && raw in results[key].sources && rule(raw).Some?
        && rule(raw).value.url == url;
      var verified := VerifiedOf(results[key], rule);
      VerifiedIff(results[key], rule, rule(raw).value);
      var i :| 0 <= i < |verified| && verified[i] == rule(raw).value;
      assert url in Urls(verified);
    }
    if key :| key in results && url in Urls(VerifiedOf(results[key], rule)) {
      var verified := VerifiedOf(results[key], rule);
      var i :| 0 <= i < |verified| && verified[i].url == url;
      assert verified[i] in verified;
      VerifiedIff(results[key], rule, verified[i]);
    }
  }

  lemma OrderedUrls(order: seq<string>, results: map<string, DependencyOutput>, rule: Rule)
    requires IsOrder(order, results.Keys)
    ensures Urls(OrderedSources(order, results, rule)) == ReportedUrls(results, rule)
  {
    OrderedOrigins(order, results, rule);
    forall url
      ensures url in Urls(OrderedSources(order, results, rule)) <==> url in ReportedUrls(results, rule)
    {
      ReportedIsVerified(results, rule, url);
      if key :| key in results && url in Urls(VerifiedOf(results[key], rule)) {
        var i :| 0 <= i < |order| && order[i] == key;
        assert url in Urls(VerifiedOf(results[order[i]], rule));
      }
    }
  }

  /** Whatever the iteration order, the number collected is the number of distinct URLs that dependencies
      report and the rule accepts, capped at five; URLs do not repeat; every source comes from a
      dependency; and when the URLs fit, all are collected. */
  lemma CollectedInAnyOrder(order: seq<string>, results: map<string, DependencyOutput>, rule: Rule)
    requires IsOrder(order, results.Keys)
    ensures var sources, reported := Collected(order, results, rule), ReportedUrls(results, rule);
      && |sources| == (if |reported| < 5 then |reported| else 5)
      && DistinctUrls(sources)
      && (forall s | s in sources :: Reported(s, results, rule))
      && (|reported| <= 5 ==> forall url | url in reported :: exists s :: s in sources && s.url == url)
  {
    var all := OrderedSources(order, results, rule);
    DistinctMeaning(all);
    OrderedUrls(order, results, rule);
    forall s | s in Collected(order, results, rule)
      ensures Reported(s, results, rule)
    {
      DistinctKeepsFirst(all, s);
      assert s in all;
      OrderedOrigins(order, results, rule);
      var key :| key in results && s in VerifiedOf(results[key], rule);
      VerifiedIff(results[key], rule, s);
    }
    if |ReportedUrls(results, rule)| <= 5 {
      assert Collected(order, results, rule) == Distinct(all);
      forall url | url in ReportedUrls(results, rule)
        ensures exists s :: s in Distinct(all) && s.url == url
      {
        assert url in Urls(Distinct(all));
        var i :| 0 <= i < |Distinct(all)| && Distinct(all)[i].url == url;
        assert Distinct(all)[i] in Distinct(all);
      }
    }
  }
}
