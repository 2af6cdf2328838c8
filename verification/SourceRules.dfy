/** When a single web source is accepted, and how its title and URL are rewritten. */
module SourceRules {
  import opened Prelude
  import opened Text

  datatype Source = Source(title: string, url: string)

  /** What the collection needs from a parsed URL; `canonical` is its text without a fragment. */
  datatype Url = Url(scheme: string, host: string, hostname: string, hasUser: bool, canonical: string)

  type UrlParser = string -> Option<Url>

  function AnnotationTitleRewrite(c: char): string {
    if c in "[]<>" then "" else if c in "\n\r" then " " else [c]
  }

  function SourceFromAnnotation(title: string, rawUrl: string, parse: UrlParser): Option<Source> {
    var parsed := parse(rawUrl);
    if parsed.None? || parsed.value.scheme != "https" || parsed.value.host == "" then None
    else
      var cleaned := ReplaceEach(TrimSpace(title), AnnotationTitleRewrite);
      var shown := if TrimSpace(cleaned) == "" then parsed.value.host else cleaned;
      if HasControl(shown) then None else Some(Source(TrimSpace(shown), parsed.value.canonical))
  }

  /** No character that delimits a Markdown link. */
  predicate NoDelimiters(s: string) {
    !ContainsAny(s, "[]<>")
  }

  lemma CleanedHasNoDelimiters(title: string)
    ensures NoDelimiters(ReplaceEach(title, AnnotationTitleRewrite))
  {
    var cleaned := ReplaceEach(title, AnnotationTitleRewrite);
    ReplaceEachRange(title, AnnotationTitleRewrite, '[');
    ReplaceEachRange(title, AnnotationTitleRewrite, ']');
    ReplaceEachRange(title, AnnotationTitleRewrite, '<');
    ReplaceEachRange(title, AnnotationTitleRewrite, '>');
    assert forall c | c in "[]<>" :: c in {'[', ']', '<', '>'};
  }

  lemma TrimmedIsClean(s: string)
    ensures !HasControl(s) ==> !HasControl(TrimSpace(s))
    ensures NoDelimiters(s) ==> NoDelimiters(TrimSpace(s))
    ensures TrimSpace(s) != "" ==> !IsSpace(TrimSpace(s)[0]) && !IsSpace(TrimSpace(s)[|TrimSpace(s)| - 1])
  {
    TrimSpaceKeepsOnly(s);
  }

  /** An accepted annotation is an https source with the canonical URL and a trimmed title without
      control characters. The title is free of link delimiters exactly when the given title leaves some text
      once cleaned, or the host, which then stands in for it, is free of them. */
  lemma AnnotationSourceMeaning(title: string, rawUrl: string, parse: UrlParser)
    requires SourceFromAnnotation(title, rawUrl, parse).Some?
    ensures parse(rawUrl).Some?
    ensures var s, url := SourceFromAnnotation(title, rawUrl, parse).value, parse(rawUrl).value;
      && url.scheme == "https" && url.host != "" && s.url == url.canonical
      && !HasControl(s.title)
      && (s.title != "" ==> !IsSpace(s.title[0]) && !IsSpace(s.title[|s.title| - 1]))
      && (NoDelimiters(s.title) <==>
            TrimSpace(ReplaceEach(TrimSpace(title), AnnotationTitleRewrite)) != "" || NoDelimiters(TrimSpace(url.host)))
  {
    var cleaned := ReplaceEach(TrimSpace(title), AnnotationTitleRewrite);
    CleanedHasNoDelimiters(TrimSpace(title));
    TrimmedIsClean(if TrimSpace(cleaned) == "" then parse(rawUrl).value.host else cleaned);
  }

  /** An untitled citation of an IPv6 host keeps the brackets of the host in its title. */
  lemma HostTitleMayHoldDelimiters(parse: UrlParser)
    requires parse("https://[::1]/") == Some(Url("https", "[::1]", "::1", false, "https://[::1]/"))
    ensures SourceFromAnnotation("", "https://[::1]/", parse) == Some(Source("[::1]", "https://[::1]/"))
    ensures !NoDelimiters("[::1]")
  {
    assert "[::1]"[0] in "[]<>";
  }

  function DependencyTitleRewrite(c: char): string {
    if c in "[]" then "" else if c in "\n\r" then " " else [c]
  }

  function VerifiedSource(source: Source, parse: UrlParser): Option<Source> {
    var parsed := parse(source.url);
    if parsed.None? || parsed.value.scheme != "https" || parsed.value.hostname == "" || parsed.value.hasUser then None
    else if HasControl(source.url) || ContainsAny(source.url, "<>") then None
    else
      var canonical := parsed.value.canonical;
      if HasControl(canonical) || ContainsAny(canonical, "<>") then None
      else
        var title := ReplaceEach(TrimSpace(source.title), DependencyTitleRewrite);
        if title == "" || HasControl(title) then None else Some(Source(title, canonical))
  }

  /** A source that can be printed in a Markdown link and read back. */
  predicate Printable(source: Source) {
    && source.title != ""
    && !HasControl(source.title) && !HasControl(source.url)
    && '[' !in source.title && ']' !in source.title
    && '<' !in source.url && '>' !in source.url
  }

  /** A verified source is an https source without credentials, under its canonical URL, whose title
      and URL can be printed and read back. */
  lemma VerifiedIsPrintable(source: Source, parse: UrlParser)
    requires VerifiedSource(source, parse).Some?
    ensures parse(source.url).Some?
    ensures var url := parse(source.url).value;
      url.scheme == "https" && url.hostname != "" && !url.hasUser
        && VerifiedSource(source, parse).value.url == url.canonical
    ensures Printable(VerifiedSource(source, parse).value)
  {
    ReplaceEachRange(TrimSpace(source.title), DependencyTitleRewrite, '[');
    ReplaceEachRange(TrimSpace(source.title), DependencyTitleRewrite, ']');
    var url := VerifiedSource(source, parse).value.url;
    forall i | 0 <= i < |url|
      ensures url[i] != '<' && url[i] != '>'
    {
      assert url[i] !in "<>";
    }
  }

  /** The two rules as the collection uses them. */
  function AnnotationRule(parse: UrlParser): Source -> Option<Source> {
    (s: Source) => SourceFromAnnotation(s.title, s.url, parse)
  }

  function DependencyRule(parse: UrlParser): Source -> Option<Source> {
    (s: Source) => VerifiedSource(s, parse)
  }

  lemma DependencyRuleIsPrintable(parse: UrlParser)
    ensures forall s :: DependencyRule(parse)(s).Some? ==> Printable(DependencyRule(parse)(s).value)
  {
    forall s | DependencyRule(parse)(s).Some? {
      VerifiedIsPrintable(s, parse);
    }
  }
}
