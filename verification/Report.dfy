/** The Markdown report of a root agent: its acceptance, its source section, and reading it back. */
module Report {
  import opened Prelude
  import opened Text
  import opened SourceRules
  import opened Sources
  import opened SourceOrder

  /** The heading of the source section. */
  const SOURCE_HEADING := "## \U{CD9C}\U{CC98}"

  datatype ReportError = TooFewSources | NoHeading | UnverifiedSourceSection

  function SourceLine(source: Source): string {
    "- [" + source.title + "](<" + source.url + ">)"
  }

  /** The text after the heading: each source on a line of its own. */
  function SourceLines(sources: seq<Source>): string {
    if sources == [] then "" else "\n" + SourceLine(sources[0]) + SourceLines(sources[1..])
  }

  lemma {:induction false} SourceLinesAppend(sources: seq<Source>, last: Source)
    ensures SourceLines(sources + [last]) == SourceLines(sources) + "\n" + SourceLine(last)
  {
    if sources == [] {
      assert ([] + [last])[1..] == [];
    } else {
      SourceLinesAppend(sources[1..], last);
      assert (sources + [last])[1..] == sources[1..] + [last];
    }
  }

  lemma {:induction false} SourceLinesConcat(a: seq<Source>, b: seq<Source>)
    ensures SourceLines(a + b) == SourceLines(a) + SourceLines(b)
  {
    if a == [] {
      assert a + b == b;
    } else {
      assert (a + b)[1..] == a[1..] + b;
      SourceLinesConcat(a[1..], b);
    }
  }

  /** Each source is printed where it stands, on a line of its own, as a Markdown link. */
  lemma LinePerSource(before: seq<Source>, s: Source, after: seq<Source>)
    ensures SourceLines(before + [s] + after)
         == SourceLines(before) + ("\n- [" + s.title + "](<" + s.url + ">)") + SourceLines(after)
  {
    SourceLinesConcat(before, [s]);
    SourceLinesConcat(before + [s], after);
    assert [s][1..] == [];
    assert "\n" + ("- [" + s.title + "](<" + s.url + ">)") == "\n- [" + s.title + "](<" + s.url + ">)";
  }

  /** Printing of the source section: lines are collected, then joined. */
  method SourcesMarkdown(sources: seq<Source>) returns (text: string)
    ensures text == SOURCE_HEADING + SourceLines(sources)
  {
    var lines := [SOURCE_HEADING];
    for i := 0 to |sources|
      invariant lines != []
      invariant Join(lines, "\n") == SOURCE_HEADING + SourceLines(sources[..i])
    {
      SourceLinesAppend(sources[..i], sources[i]);
      assert sources[..i + 1] == sources[..i] + [sources[i]];
      var more := lines + [SourceLine(sources[i])];
      assert more[..|more| - 1] == lines;
      lines := more;
    }
    assert sources[..|sources|] == sources;
    text := Join(lines, "\n");
  }

  // ---------- reading a report back ----------

  /** Reads one `- [title](<url>)` line, with what comes after. */
  function ParseLine(text: string): (r: Option<(Source, string)>)
    ensures r.Some? ==> |r.value.1| < |text|
  {
    var title := ReadField(text, "\n- [", ']');
    if title.None? then None
    else
      var url := ReadField(title.value.1, "](<", '>');
      if url.None? || !(">)" <= url.value.1) then None
      else Some((Source(title.value.0, url.value.0), url.value.1[2..]))
  }

  /** Reads lines until the end of the text. */
  function ParseLines(text: string): Option<seq<Source>>
    decreases |text|
  {
    if text == "" then Some([])
    else
      var line := ParseLine(text);
      if line.None? then None
      else
        var rest := ParseLines(line.value.1);
        if rest.None? then None else Some([line.value.0] + rest.value)
  }

  /** Splits a report at its first source heading. */
  function ParseReport(text: string): Option<(string, seq<Source>)> {
    var at := IndexOf(text, SOURCE_HEADING);
    if at.None? || at.value < 2 then None
    else
      var sources := ParseLines(text[at.value + |SOURCE_HEADING|..]);
      if sources.None? then None else Some((text[..at.value - 2], sources.value))
  }

  lemma LineShape(title: string, url: string, rest: string)
    ensures "\n" + SourceLine(Source(title, url)) + rest
         == "\n- [" + title + [']'] + ("(<" + url + ['>'] + (")" + rest))
    ensures [']'] + ("(<" + url + ['>'] + (")" + rest)) == "](<" + url + ['>'] + (")" + rest)
  {
    assert "\n" + ("- [" + title) == "\n- [" + title;
  }

  lemma LineRoundTrip(s: Source, rest: string)
    requires Printable(s)
    ensures ParseLine("\n" + SourceLine(s) + rest) == Some((s, rest))
  {
    var afterUrl := ")" + rest;
    LineShape(s.title, s.url, rest);
    FieldRoundTrip("\n- [", s.title, ']', "(<" + s.url + ['>'] + afterUrl);
    FieldRoundTrip("](<", s.url, '>', afterUrl);
    assert (['>'] + afterUrl)[2..] == rest;
  }

  lemma {:induction false} LinesRoundTrip(sources: seq<Source>)
    requires forall s | s in sources :: Printable(s)
    ensures ParseLines(SourceLines(sources)) == Some(sources)
  {
    if sources == [] {
    } else {
      LinesRoundTrip(sources[1..]);
      LineRoundTrip(sources[0], SourceLines(sources[1..]));
      assert sources == [sources[0]] + sources[1..];
    }
  }

  /** The first heading of a report whose body has none is two characters after the body: an earlier
      match would lie in the body or cover one of the two newlines. */
  lemma HeadingFollowsBody(body: string, rest: string)
    requires !Contains(body, SOURCE_HEADING)
    ensures IndexOf(body + "\n\n" + SOURCE_HEADING + rest, SOURCE_HEADING) == Some(|body| + 2)
  {
    var text := body + "\n\n" + SOURCE_HEADING + rest;
    assert OccursAt(text, SOURCE_HEADING, |body| + 2);
    assert text[|body|] == '\n' && text[|body| + 1] == '\n' && '\n' !in SOURCE_HEADING;
    forall i: nat | OccursAt(text, SOURCE_HEADING, i)
      ensures i >= |body| + 2
    {
      OccursByCharacter(text, SOURCE_HEADING, i);
      if i + |SOURCE_HEADING| <= |body| {
        assert text[i..i + |SOURCE_HEADING|] == body[i..i + |SOURCE_HEADING|];
        assert OccursAt(body, SOURCE_HEADING, i);
      }
    }
  }

  /** Printing and then reading back recovers the body and the sources exactly. */
  lemma ReportRoundTrip(body: string, sources: seq<Source>)
    requires !Contains(body, SOURCE_HEADING)
    requires forall s | s in sources :: Printable(s)
    ensures ParseReport(body + "\n\n" + (SOURCE_HEADING + SourceLines(sources))) == Some((body, sources))
  {
    HeadingFollowsBody(body, SourceLines(sources));
    LinesRoundTrip(sources);
    Pieces(body, "\n\n", SOURCE_HEADING, SourceLines(sources));
  }

  /** Reports are unambiguous: equal texts have equal bodies and equal source lists. */
  lemma ReportsAreUnambiguous(body: string, sources: seq<Source>, body': string, sources': seq<Source>)
    requires !Contains(body, SOURCE_HEADING) && !Contains(body', SOURCE_HEADING)
    requires forall s | s in sources + sources' :: Printable(s)
    requires body + "\n\n" + (SOURCE_HEADING + SourceLines(sources))
               == body' + "\n\n" + (SOURCE_HEADING + SourceLines(sources'))
    ensures body == body' && sources == sources'
  {
    assert forall s | s in sources :: s in sources + sources';
    assert forall s | s in sources' :: s in sources + sources';
    ReportRoundTrip(body, sources);
    ReportRoundTrip(body', sources');
  }

  /** The text of an accepted report, for one iteration order of the map. */
  function ReportText(body: string, order: seq<string>, results: map<string, DependencyOutput>,
        parse: UrlParser): string
    requires IsOrder(order, results.Keys)
  {
    body + "\n\n" + (SOURCE_HEADING + SourceLines(Collected(order, results, DependencyRule(parse))))
  }

  lemma CollectedIsPrintable(order: seq<string>, results: map<string, DependencyOutput>, parse: UrlParser)
    requires IsOrder(order, results.Keys)
    ensures forall s | s in Collected(order, results, DependencyRule(parse)) :: Printable(s)
  {
    CollectedInAnyOrder(order, results, DependencyRule(parse));
    DependencyRuleIsPrintable(parse);
  }

  /** The text of an accepted report is the same in every iteration order exactly when, of any two
      contributions, one begins the other. */
  lemma ReportIsOrderFreeIff(body: string, results: map<string, DependencyOutput>, parse: UrlParser)
    requires !Contains(body, SOURCE_HEADING)
    ensures (forall order, order' | IsOrder(order, results.Keys) && IsOrder(order', results.Keys) ::
               ReportText(body, order, results, parse) == ReportText(body, order', results, parse))
         <==> ContributionsNest(results, DependencyRule(parse))
  {
    var rule := DependencyRule(parse);
    forall order, order' | IsOrder(order, results.Keys) && IsOrder(order', results.Keys)
      ensures ReportText(body, order, results, parse) == ReportText(body, order', results, parse)
         <==> Collected(order, results, rule) == Collected(order', results, rule)
    {
      CollectedIsPrintable(order, results, parse);
      CollectedIsPrintable(order', results, parse);
      if ReportText(body, order, results, parse) == ReportText(body, order', results, parse) {
        ReportsAreUnambiguous(body, Collected(order, results, rule), body, Collected(order', results, rule));
      }
    }
    ListOrderFreeIff(results, rule);
  }

  /** The decision on a root agent's answer. It does not depend on the order in which the map of
      dependency results is visited; an accepted report reads back as the trimmed answer and a list
      of that many distinct verified sources. */
  method AggregateMarkdownResult(output: string, results: map<string, DependencyOutput>, minimumSources: nat,
        parse: UrlParser)
    returns (r: Result<string, ReportError>)
    ensures var reported := |ReportedUrls(results, DependencyRule(parse))|;
      var available := if reported < 5 then reported else 5;
      && (r == Err(TooFewSources) <==> available < minimumSources)
      && (r == Err(NoHeading) <==> minimumSources <= available && !("#" <= TrimSpace(output)))
      && (r == Err(UnverifiedSourceSection) <==>
            minimumSources <= available && "#" <= TrimSpace(output)
            && Contains(TrimSpace(output), "## \U{CD9C}\U{CC98}"))
      && (r.Ok? ==> exists sources ::
            && r.value == TrimSpace(output) + "\n\n" + ("## \U{CD9C}\U{CC98}" + SourceLines(sources))
            && ParseReport(r.value) == Some((TrimSpace(output), sources))
            && |sources| == available && DistinctUrls(sources)
            && forall s | s in sources :: Reported(s, results, DependencyRule(parse)))
  {
    var sources := SourcesFromDependencies(results, DependencyRule(parse));
    ghost var order :| IsOrder(order, results.Keys) && sources == Collected(order, results, DependencyRule(parse));
    CollectedInAnyOrder(order, results, DependencyRule(parse));
    if |sources| < minimumSources {
      return Err(TooFewSources);
    }
    var markdown := TrimSpace(output);
    if !("#" <= markdown) {
      return Err(NoHeading);
    }
    if IndexOf(markdown, SOURCE_HEADING).Some? {
      return Err(UnverifiedSourceSection);
    }
    DependencyRuleIsPrintable(parse);
    ReportRoundTrip(markdown, sources);
    var section := SourcesMarkdown(sources);
    return Ok(markdown + "\n\n" + section);
  }
}
