/** When the iteration order of the map of dependency results decides what is collected. */
module SourceOrder {
  import opened Prelude
  import opened SourceRules
  import opened Sources

  // ---------- what is kept of a list, and of two lists in a row ----------

  function Kept(sources: seq<Source>): seq<Source> {
    Cap(Distinct(sources))
  }

  lemma {:induction false} DistinctUrlsAreKept(sources: seq<Source>)
    requires DistinctUrls(sources)
    ensures Distinct(sources) == sources && |Urls(sources)| == |sources|
  {
    if sources == [] {
    } else {
      DistinctUrlsAreKept(sources[..|sources| - 1]);
    }
    DistinctMeaning(sources);
  }

  lemma KeptAreDistinct(sources: seq<Source>)
    ensures DistinctUrls(Kept(sources)) && Urls(Kept(sources)) <= Urls(sources)
  {
    DistinctMeaning(sources);
    forall url | url in Urls(Kept(sources))
      ensures url in Urls(Distinct(sources))
    {
      var i :| 0 <= i < |Kept(sources)| && Kept(sources)[i].url == url;
      assert Distinct(sources)[i].url == url;
    }
  }

  lemma KeptOfPrefix(a: seq<Source>, b: seq<Source>)
    requires a <= b
    ensures Kept(a) <= Kept(b)
  {
    DistinctPrefix(a, b);
  }

  /** A source that repeats a URL, or comes when five are kept, is dropped. */
  lemma LastIsDropped(sources: seq<Source>, last: Source)
    requires last.url in Urls(sources) || |Distinct(sources)| >= MAXIMUM_SOURCES
    ensures Kept(sources + [last]) == Kept(sources)
  {
    assert (sources + [last])[..|sources|] == sources;
  }

  lemma LastIsKept(sources: seq<Source>, last: Source)
    requires last.url !in Urls(sources) && |Distinct(sources)| < MAXIMUM_SOURCES
    ensures Kept(sources + [last]) == Kept(sources) + [last]
  {
    assert (sources + [last])[..|sources|] == sources;
  }

  /** A source kept after `a` and `b` would also be kept after `b` alone. */
  lemma KeptAfterFewer(a: seq<Source>, b: seq<Source>, last: Source)
    requires last.url !in Urls(a + b) && |Distinct(a + b)| < MAXIMUM_SOURCES
    ensures last.url !in Urls(b) && |Distinct(b)| < MAXIMUM_SOURCES
  {
    UrlsOfConcat(a, b);
    DistinctMeaning(a + b);
    DistinctMeaning(b);
    SubsetIsSmaller(Urls(b), Urls(a + b));
  }

  /** What is kept of `a` followed by `b` would be kept of one of them alone. */
  lemma {:induction false} KeptOfConcat(a: seq<Source>, b: seq<Source>, s: Source)
    ensures s in Kept(a + b) ==> s in Kept(a) || s in Kept(b)
    decreases |b|
  {
    if b == [] {
      assert a + b == a;
    } else {
      var before, last := b[..|b| - 1], b[|b| - 1];
      assert b == before + [last] && a + b == a + before + [last];
      KeptOfConcat(a, before, s);
      KeptOfPrefix(before, b);
      if last.url in Urls(a + before) || |Distinct(a + before)| >= MAXIMUM_SOURCES {
        LastIsDropped(a + before, last);
      } else {
        LastIsKept(a + before, last);
        KeptAfterFewer(a, before, last);
        LastIsKept(before, last);
      }
    }
  }

  predicate Comparable(a: seq<Source>, b: seq<Source>) {
    a <= b || b <= a
  }

  function Longer(a: seq<Source>, b: seq<Source>): seq<Source> {
    if |a| <= |b| then b else a
  }

  /** While fewer than five are kept, they have all the URLs offered. */
  lemma KeptHasAllUrls(sources: seq<Source>)
    requires |Kept(sources)| < MAXIMUM_SOURCES
    ensures Urls(Kept(sources)) == Urls(sources)
  {
    DistinctMeaning(sources);
  }

  /** The step of `KeptOfComparable`: `last` arrives after `before`. */
  lemma KeptOfComparableStep(a: seq<Source>, before: seq<Source>, last: Source)
    requires Kept(a + before) == Longer(Kept(a), Kept(before))
    requires Comparable(Kept(a), Kept(before + [last]))
    ensures Kept(a + before + [last]) == Longer(Kept(a), Kept(before + [last]))
  {
    UrlsOfConcat(a, before);
    if last.url in Urls(before) || |Distinct(before)| >= MAXIMUM_SOURCES {
      LastIsDropped(before, last);
      LastIsDropped(a + before, last);
    } else {
      LastIsKept(before, last);
      if |Kept(a)| <= |Kept(before)| {
        KeptHasAllUrls(a + before);
        KeptHasAllUrls(before);
        LastIsKept(a + before, last);
      } else {
        assert Kept(a)[|Kept(before)|] == last;
        assert last.url in Urls(Kept(a));
        KeptAreDistinct(a);
        LastIsDropped(a + before, last);
      }
    }
  }

  /** If what is kept of one list begins what is kept of the other, the longer is kept of both. */
  lemma {:induction false} KeptOfComparable(a: seq<Source>, b: seq<Source>)
    requires Comparable(Kept(a), Kept(b))
    ensures Kept(a + b) == Longer(Kept(a), Kept(b))
    decreases |b|
  {
    if b == [] {
      assert a + b == a;
    } else {
      var before, last := b[..|b| - 1], b[|b| - 1];
      assert b == before + [last] && a + b == a + before + [last];
      KeptOfPrefix(before, b);
      KeptOfComparable(a, before);
      KeptOfComparableStep(a, before, last);
    }
  }

  // ---------- what a dependency contributes ----------

  /** The sources of one dependency that are collected when it is visited first. */
  function Contribution(key: string, results: map<string, DependencyOutput>, rule: Rule): seq<Source>
    requires key in results
  {
    Kept(VerifiedOf(results[key], rule))
  }

  /** The URLs of all contributions. */
  function ContributedUrls(results: map<string, DependencyOutput>, rule: Rule): set<string> {
    set key, url | key in results && url in Urls(Contribution(key, results, rule)) :: url
  }

  lemma OneVisited(key: string, keys: set<string>)
    requires key in keys
    ensures Visited([key], keys - {key}, keys)
  {
    assert [key][0] == key;
  }

  /** Some order visits `key` first, and then collects its contribution first. */
  lemma VisitedFirst(key: string, results: map<string, DependencyOutput>, rule: Rule) returns (order: seq<string>)
    requires key in results
    ensures IsOrder(order, results.Keys)
    ensures Contribution(key, results, rule) <= Collected(order, results, rule)
  {
    OneVisited(key, results.Keys);
    order := VisitTheRest([key], results.Keys - {key}, results, rule);
    SingleOrder(key, results, rule);
    KeptOfPrefix(VerifiedOf(results[key], rule), OrderedSources(order, results, rule));
  }

  /** Whatever is collected is in some contribution. */
  lemma {:induction false} CollectedIsContributed(order: seq<string>, results: map<string, DependencyOutput>,
        rule: Rule, s: Source) returns (key: string)
    requires forall i | 0 <= i < |order| :: order[i] in results
    requires s in Kept(OrderedSources(order, results, rule))
    ensures key in results && s in Contribution(key, results, rule)
  {
    var n := |order| - 1;
    KeptOfConcat(OrderedSources(order[..n], results, rule), VerifiedOf(results[order[n]], rule), s);
    if s in Contribution(order[n], results, rule) {
      key := order[n];
    } else {
      key := CollectedIsContributed(order[..n], results, rule, s);
    }
  }

  lemma UrlOf(sources: seq<Source>, url: string) returns (s: Source)
    requires url in Urls(sources)
    ensures s in sources && s.url == url
  {
    var i :| 0 <= i < |sources| && sources[i].url == url;
    s := sources[i];
  }

  lemma CollectedUrlsAreContributed(order: seq<string>, results: map<string, DependencyOutput>, rule: Rule)
    requires IsOrder(order, results.Keys)
    ensures Urls(Collected(order, results, rule)) <= ContributedUrls(results, rule)
  {
    forall url | url in Urls(Collected(order, results, rule))
      ensures url in ContributedUrls(results, rule)
    {
      var s := UrlOf(Collected(order, results, rule), url);
      var key := CollectedIsContributed(order, results, rule, s);
      assert url in Urls(Contribution(key, results, rule));
    }
  }

  lemma ContributedIsVerified(results: map<string, DependencyOutput>, rule: Rule)
    ensures ContributedUrls(results, rule) <= ReportedUrls(results, rule)
  {
    forall url | url in ContributedUrls(results, rule)
      ensures url in ReportedUrls(results, rule)
    {
      var key :| key in results && url in Urls(Contribution(key, results, rule));
      KeptAreDistinct(VerifiedOf(results[key], rule));
      ReportedIsVerified(results, rule, url);
    }
  }

  // ---------- the URLs ----------

  /** The URLs collected do not depend on the iteration order. */
  ghost predicate UrlsOrderFree(results: map<string, DependencyOutput>, rule: Rule) {
    forall order, order' | IsOrder(order, results.Keys) && IsOrder(order', results.Keys) ::
      Urls(Collected(order, results, rule)) == Urls(Collected(order', results, rule))
  }

  lemma FewAreAllCollected(order: seq<string>, results: map<string, DependencyOutput>, rule: Rule)
    requires IsOrder(order, results.Keys) && |ContributedUrls(results, rule)| <= MAXIMUM_SOURCES
    ensures Urls(Collected(order, results, rule)) == ContributedUrls(results, rule)
  {
    CollectedInAnyOrder(order, results, rule);
    CollectedUrlsAreContributed(order, results, rule);
    DistinctUrlsAreKept(Collected(order, results, rule));
    ContributedIsVerified(results, rule);
    SubsetIsSmaller(ContributedUrls(results, rule), ReportedUrls(results, rule));
    SubsetIsSmaller(Urls(Collected(order, results, rule)), ContributedUrls(results, rule));
  }

  /** The iteration order decides which URLs are collected exactly when the dependencies together
      contribute more than fit. */
  lemma UrlsOrderFreeIff(results: map<string, DependencyOutput>, rule: Rule)
    ensures UrlsOrderFree(results, rule) <==> |ContributedUrls(results, rule)| <= MAXIMUM_SOURCES
  {
    if |ContributedUrls(results, rule)| <= MAXIMUM_SOURCES {
      forall order | IsOrder(order, results.Keys) {
        FewAreAllCollected(order, results, rule);
      }
    }
    if UrlsOrderFree(results, rule) {
      var order := VisitTheRest([], results.Keys, results, rule);
      var common := Urls(Collected(order, results, rule));
      forall url | url in ContributedUrls(results, rule)
        ensures url in common
      {
        var key :| key in results && url in Urls(Contribution(key, results, rule));
        var s := UrlOf(Contribution(key, results, rule), url);
        var keyFirst := VisitedFirst(key, results, rule);
        assert s in Collected(keyFirst, results, rule);
      }
      CollectedInAnyOrder(order, results, rule);
      DistinctUrlsAreKept(Collected(order, results, rule));
      SubsetIsSmaller(ContributedUrls(results, rule), common);
    }
  }

  // ---------- the sources ----------

  /** The sources collected, as a set, do not depend on the iteration order. */
  ghost predicate SourcesOrderFree(results: map<string, DependencyOutput>, rule: Rule) {
    forall order, order', s: Source | IsOrder(order, results.Keys) && IsOrder(order', results.Keys) ::
      s in Collected(order, results, rule) ==> s in Collected(order', results, rule)
  }

  /** Contributions with the same URL have the same title. */
  ghost predicate TitlesAgree(results: map<string, DependencyOutput>, rule: Rule) {
    forall key, key', s: Source, s': Source | key in results && key' in results ::
      s in Contribution(key, results, rule) && s' in Contribution(key', results, rule) && s.url == s'.url ==> s == s'
  }

  lemma SourcesThenUrls(results: map<string, DependencyOutput>, rule: Rule)
    requires SourcesOrderFree(results, rule)
    ensures UrlsOrderFree(results, rule)
  {
    forall order, order', url | IsOrder(order, results.Keys) && IsOrder(order', results.Keys)
      && url in Urls(Collected(order, results, rule))
      ensures url in Urls(Collected(order', results, rule))
    {
      var s := UrlOf(Collected(order, results, rule), url);
      assert s in Collected(order', results, rule);
    }
  }

  lemma SameUrlSameSource(sources: seq<Source>, s: Source, s': Source)
    requires DistinctUrls(sources) && s in sources && s' in sources && s.url == s'.url
    ensures s == s'
  {
  }

  /** A common answer holds both sources, and no URL twice. */
  lemma TitleIsForced(key: string, key': string, results: map<string, DependencyOutput>, rule: Rule,
        s: Source, s': Source)
    requires SourcesOrderFree(results, rule) && key in results && key' in results && s.url == s'.url
    requires s in Contribution(key, results, rule) && s' in Contribution(key', results, rule)
    ensures s == s'
  {
    var order := VisitedFirst(key, results, rule);
    var order' := VisitedFirst(key', results, rule);
    var common := Collected(order, results, rule);
    assert s in common;
    assert s' in Collected(order', results, rule);
    assert s' in common;
    KeptAreDistinct(OrderedSources(order, results, rule));
    SameUrlSameSource(common, s, s');
  }

  lemma SourcesThenTitles(results: map<string, DependencyOutput>, rule: Rule)
    requires SourcesOrderFree(results, rule)
    ensures TitlesAgree(results, rule)
  {
    forall key, key', s: Source, s': Source | key in results && key' in results
      && s in Contribution(key, results, rule) && s' in Contribution(key', results, rule) && s.url == s'.url
      ensures s == s'
    {
      TitleIsForced(key, key', results, rule, s, s');
    }
  }

  /** The sources collected are the same in every order exactly when the contributions fit together and
      agree on titles. */
  lemma SourcesOrderFreeIff(results: map<string, DependencyOutput>, rule: Rule)
    ensures SourcesOrderFree(results, rule) <==>
              |ContributedUrls(results, rule)| <= MAXIMUM_SOURCES && TitlesAgree(results, rule)
  {
    UrlsOrderFreeIff(results, rule);
    if SourcesOrderFree(results, rule) {
      SourcesThenUrls(results, rule);
      SourcesThenTitles(results, rule);
    }
    if UrlsOrderFree(results, rule) && TitlesAgree(results, rule) {
      forall order, order', s: Source | IsOrder(order, results.Keys) && IsOrder(order', results.Keys)
        && s in Collected(order, results, rule)
        ensures s in Collected(order', results, rule)
      {
        assert s.url in Urls(Collected(order, results, rule));
        var s' := UrlOf(Collected(order', results, rule), s.url);
        var key := CollectedIsContributed(order, results, rule, s);
        var key' := CollectedIsContributed(order', results, rule, s');
      }
    }
  }

  // ---------- the list ----------

  /** The list collected, and so the report, does not depend on the iteration order. */
  ghost predicate ListOrderFree(results: map<string, DependencyOutput>, rule: Rule) {
    forall order, order' | IsOrder(order, results.Keys) && IsOrder(order', results.Keys) ::
      Collected(order, results, rule) == Collected(order', results, rule)
  }

  /** Of any two contributions, one begins the other. */
  ghost predicate ContributionsNest(results: map<string, DependencyOutput>, rule: Rule) {
    forall key, key' | key in results && key' in results ::
      Comparable(Contribution(key, results, rule), Contribution(key', results, rule))
  }

  /** `list` is one of the contributions visited, or empty, and all of them begin it. */
  ghost predicate IsLongest(list: seq<Source>, visited: seq<string>, results: map<string, DependencyOutput>, rule: Rule)
    requires forall i | 0 <= i < |visited| :: visited[i] in results
  {
    && (list == [] || exists i | 0 <= i < |visited| :: list == Contribution(visited[i], results, rule))
    && forall i | 0 <= i < |visited| :: Contribution(visited[i], results, rule) <= list
  }

  lemma LongestNext(list: seq<Source>, visited: seq<string>, last: string,
        results: map<string, DependencyOutput>, rule: Rule)
    requires (forall i | 0 <= i < |visited| :: visited[i] in results) && last in results
    requires IsLongest(list, visited, results, rule) && Comparable(list, Contribution(last, results, rule))
    ensures IsLongest(Longer(list, Contribution(last, results, rule)), visited + [last], results, rule)
  {
    var more := visited + [last];
    assert more[|visited|] == last;
    forall i | 0 <= i < |visited|
      ensures Contribution(more[i], results, rule) <= Longer(list, Contribution(last, results, rule))
    {
      assert more[i] == visited[i];
      assert Contribution(visited[i], results, rule) <= list;
    }
    if list != [] {
      var i :| 0 <= i < |visited| && list == Contribution(visited[i], results, rule);
      assert more[i] == visited[i];
    }
  }

  /** The longest contribution seen so far is comparable with the next. */
  lemma LongestIsComparable(list: seq<Source>, visited: seq<string>, last: string,
        results: map<string, DependencyOutput>, rule: Rule)
    requires (forall i | 0 <= i < |visited| :: visited[i] in results) && last in results
    requires IsLongest(list, visited, results, rule) && ContributionsNest(results, rule)
    ensures Comparable(list, Contribution(last, results, rule))
  {
  }

  lemma {:induction false} LongestIsKept(order: seq<string>, results: map<string, DependencyOutput>, rule: Rule)
    requires forall i | 0 <= i < |order| :: order[i] in results
    requires ContributionsNest(results, rule)
    ensures IsLongest(Kept(OrderedSources(order, results, rule)), order, results, rule)
  {
    if order == [] {
    } else {
      var n := |order| - 1;
      var before, last := order[..n], order[n];
      var list := Kept(OrderedSources(before, results, rule));
      LongestIsKept(before, results, rule);
      LongestIsComparable(list, before, last, results, rule);
      LongestNext(list, before, last, results, rule);
      KeptOfComparable(OrderedSources(before, results, rule), VerifiedOf(results[last], rule));
      assert before + [last] == order;
    }
  }

  lemma LongestIsUnique(order: seq<string>, order': seq<string>, results: map<string, DependencyOutput>, rule: Rule)
    requires IsOrder(order, results.Keys) && IsOrder(order', results.Keys) && ContributionsNest(results, rule)
    ensures Collected(order, results, rule) <= Collected(order', results, rule)
  {
    LongestIsKept(order, results, rule);
    LongestIsKept(order', results, rule);
    var list := Collected(order, results, rule);
    if list != [] {
      var i :| 0 <= i < |order| && list == Contribution(order[i], results, rule);
      var j :| 0 <= j < |order'| && order'[j] == order[i];
      assert Contribution(order'[j], results, rule) <= Collected(order', results, rule);
    }
  }

  /** The list collected is the same in every order exactly when the contributions nest. */
  lemma ListOrderFreeIff(results: map<string, DependencyOutput>, rule: Rule)
    ensures ListOrderFree(results, rule) <==> ContributionsNest(results, rule)
  {
    if ListOrderFree(results, rule) {
      forall key, key' | key in results && key' in results
        ensures Comparable(Contribution(key, results, rule), Contribution(key', results, rule))
      {
        var order := VisitedFirst(key, results, rule);
        var order' := VisitedFirst(key', results, rule);
        assert Collected(order, results, rule) == Collected(order', results, rule);
      }
    }
    if ContributionsNest(results, rule) {
      forall order, order' | IsOrder(order, results.Keys) && IsOrder(order', results.Keys)
        ensures Collected(order, results, rule) == Collected(order', results, rule)
      {
        LongestIsUnique(order, order', results, rule);
        LongestIsUnique(order', order, results, rule);
      }
    }
  }

  // ---------- inputs where the order decides ----------

  lemma SingleOrder(key: string, results: map<string, DependencyOutput>, rule: Rule)
    requires key in results
    ensures OrderedSources([key], results, rule) == VerifiedOf(results[key], rule)
  {
    assert [key][..0] == [];
    assert OrderedSources([key], results, rule) == [] + VerifiedOf(results[key], rule);
  }

  lemma PairOrder(first: string, second: string, results: map<string, DependencyOutput>, rule: Rule)
    requires first != second && results.Keys == {first, second}
    ensures IsOrder([first, second], results.Keys)
    ensures Collected([first, second], results, rule)
         == Cap(Distinct(VerifiedOf(results[first], rule) + VerifiedOf(results[second], rule)))
  {
    var order := [first, second];
    assert order[0] == first && order[1] == second;
    assert order[..1] == [first];
    SingleOrder(first, results, rule);
  }

  lemma DistinctAfterMove(sources: seq<Source>, s: Source)
    requires DistinctUrls(sources + [s])
    ensures DistinctUrls([s] + sources)
  {
    var last, front := sources + [s], [s] + sources;
    forall i, j | 0 <= i < j < |front|
      ensures front[i].url != front[j].url
    {
      assert front[j] == last[j - 1];
      assert front[i] == last[if i == 0 then |sources| else i - 1];
    }
  }

  lemma CapOfDistinct(sources: seq<Source>)
    requires DistinctUrls(sources) && |sources| > MAXIMUM_SOURCES
    ensures Cap(Distinct(sources)) == sources[..MAXIMUM_SOURCES]
  {
    DistinctUrlsAreKept(sources);
  }

  lemma FiveOfSix(five: seq<Source>, sixth: Source)
    requires |five| == MAXIMUM_SOURCES && DistinctUrls(five + [sixth])
    ensures Cap(Distinct(five + [sixth])) == five
    ensures Cap(Distinct([sixth] + five)) == [sixth] + five[..MAXIMUM_SOURCES - 1]
  {
    DistinctAfterMove(five, sixth);
    CapOfDistinct(five + [sixth]);
    CapOfDistinct([sixth] + five);
  }

  /** One dependency with five verified sources and one with a sixth: the sixth is collected exactly
      when its dependency comes first. */
  lemma OrderMayDecide(a: string, b: string, results: map<string, DependencyOutput>, sixth: Source, rule: Rule)
    requires a != b && results.Keys == {a, b}
    requires |VerifiedOf(results[a], rule)| == MAXIMUM_SOURCES && VerifiedOf(results[b], rule) == [sixth]
    requires DistinctUrls(VerifiedOf(results[a], rule) + [sixth])
    ensures IsOrder([a, b], results.Keys) && IsOrder([b, a], results.Keys)
    ensures var five := VerifiedOf(results[a], rule);
      && Collected([a, b], results, rule) == five
      && Collected([b, a], results, rule) == [sixth] + five[..MAXIMUM_SOURCES - 1]
  {
    PairOrder(a, b, results, rule);
    PairOrder(b, a, results, rule);
    FiveOfSix(VerifiedOf(results[a], rule), sixth);
  }

  /** Two dependencies that verify one URL under different titles: the one visited first gives the title. */
  lemma TitleMayDecide(a: string, b: string, results: map<string, DependencyOutput>, s: Source, t: Source, rule: Rule)
    requires a != b && results.Keys == {a, b} && s.url == t.url
    requires VerifiedOf(results[a], rule) == [s] && VerifiedOf(results[b], rule) == [t]
    ensures IsOrder([a, b], results.Keys) && Collected([a, b], results, rule) == [s]
    ensures IsOrder([b, a], results.Keys) && Collected([b, a], results, rule) == [t]
  {
    PairOrder(a, b, results, rule);
    PairOrder(b, a, results, rule);
    FirstOfTwo(VerifiedOf(results[a], rule), t);
    FirstOfTwo(VerifiedOf(results[b], rule), s);
  }

  lemma FirstOfTwo(sources: seq<Source>, t: Source)
    requires |sources| == 1 && sources[0].url == t.url
    ensures Kept(sources + [t]) == sources
  {
    DistinctUrlsAreKept(sources);
    assert sources[0].url in Urls(sources);
    LastIsDropped(sources, t);
  }
}
