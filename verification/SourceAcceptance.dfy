/** Exactly when a single source is accepted, character by character, and what is kept of it. */
module SourceAcceptance {
  import opened Text
  import opened SourceRules

  /** No character is a control character, by code point. */
  predicate NoControls(s: string) {
    forall c | c in s :: !(c as int < 0x20 || 0x7F <= c as int <= 0x9F)
  }

  /** No character is a control character but a newline or a carriage return. */
  predicate OnlyLineControls(s: string) {
    forall c | c in s :: c == '\n' || c == '\r' || !(c as int < 0x20 || 0x7F <= c as int <= 0x9F)
  }

  lemma NoControlsIff(s: string)
    ensures NoControls(s) <==> !HasControl(s)
  {
    assert forall i | 0 <= i < |s| :: s[i] in s;
    if !NoControls(s) {
      var c :| c in s && (c as int < 0x20 || 0x7F <= c as int <= 0x9F);
      var i :| 0 <= i < |s| && s[i] == c;
      assert IsControl(s[i]);
    }
  }

  // ---------- annotations ----------

  predicate IsDelimiter(c: char) {
    c == '[' || c == ']' || c == '<' || c == '>'
  }

  predicate IsLineBreak(c: char) {
    c == '\n' || c == '\r'
  }

  /** Cleaning keeps all characters but delimiters and line breaks, and a blank for each line break. */
  lemma {:induction false} CleanedCharacters(title: string, c: char)
    ensures c in ReplaceEach(title, AnnotationTitleRewrite) <==>
              || (c in title && !IsDelimiter(c) && !IsLineBreak(c))
              || (c == ' ' && ('\n' in title || '\r' in title))
  {
    if title == "" {
    } else {
      CleanedCharacters(title[1..], c);
      RewrittenCharacter(title[0], c);
      assert forall d :: d in title <==> d == title[0] || d in title[1..];
    }
  }

  lemma RewrittenCharacter(d: char, c: char)
    ensures c in AnnotationTitleRewrite(d) <==>
              !IsDelimiter(d) && c == if IsLineBreak(d) then ' ' else d
  {
  }

  /** Some character is left of a title once delimiters are dropped and white space is trimmed. */
  predicate Shows(title: string) {
    exists c :: c in title && !IsDelimiter(c) && !IsSpace(c)
  }

  lemma CleanedShowsIff(title: string)
    ensures TrimSpace(ReplaceEach(title, AnnotationTitleRewrite)) != "" <==> Shows(title)
  {
    var cleaned := ReplaceEach(title, AnnotationTitleRewrite);
    TrimsToNothingIff(cleaned);
    forall c
      ensures c in cleaned && !IsSpace(c) <==> c in title && !IsDelimiter(c) && !IsSpace(c)
    {
      CleanedCharacters(title, c);
    }
  }

  lemma CleanedControlsIff(title: string)
    ensures NoControls(ReplaceEach(title, AnnotationTitleRewrite)) <==> OnlyLineControls(title)
  {
    var cleaned := ReplaceEach(title, AnnotationTitleRewrite);
    forall c | IsControl(c)
      ensures c in cleaned <==> c in title && !IsLineBreak(c)
    {
      CleanedCharacters(title, c);
    }
    assert NoControls(cleaned) <==> forall c | IsControl(c) :: c !in cleaned;
    assert OnlyLineControls(title) <==> forall c | IsControl(c) :: !(c in title && !IsLineBreak(c));
  }

  /** An annotation is accepted exactly when its URL parses as https with a host, and the text shown for it
      has no control character. What is shown is the title, when some of it shows, and otherwise the host;
      a newline or a carriage return in the title does no harm. */
  lemma AnnotationAcceptedIff(title: string, rawUrl: string, parse: UrlParser)
    ensures SourceFromAnnotation(title, rawUrl, parse).Some? <==>
              && parse(rawUrl).Some?
              && var url := parse(rawUrl).value;
              && url.scheme == "https" && url.host != ""
              && if Shows(TrimSpace(title)) then OnlyLineControls(TrimSpace(title)) else NoControls(url.host)
  {
    var cleaned := ReplaceEach(TrimSpace(title), AnnotationTitleRewrite);
    CleanedShowsIff(TrimSpace(title));
    CleanedControlsIff(TrimSpace(title));
    NoControlsIff(cleaned);
    if parse(rawUrl).Some? {
      NoControlsIff(parse(rawUrl).value.host);
    }
  }

  /** The title of an accepted annotation: the trimmed title with delimiters dropped and line breaks made
      blanks, trimmed again; or the trimmed host. */
  lemma AnnotationTitle(title: string, rawUrl: string, parse: UrlParser)
    requires SourceFromAnnotation(title, rawUrl, parse).Some?
    ensures var url, s := parse(rawUrl).value, SourceFromAnnotation(title, rawUrl, parse).value;
      s == Source(
        TrimSpace(if Shows(TrimSpace(title)) then ReplaceEach(TrimSpace(title), AnnotationTitleRewrite) else url.host),
        url.canonical)
  {
    CleanedShowsIff(TrimSpace(title));
  }

  lemma AnnotationTitleByCharacter(before: string, c: char, after: string)
    ensures ReplaceEach(before + [c] + after, AnnotationTitleRewrite)
         == ReplaceEach(before, AnnotationTitleRewrite)
              + (if c == '[' || c == ']' || c == '<' || c == '>' then ""
                 else if c == '\n' || c == '\r' then " " else [c])
              + ReplaceEach(after, AnnotationTitleRewrite)
  {
    ReplaceInPlace(before, c, after, AnnotationTitleRewrite);
  }

  // ---------- sources of dependencies ----------

  lemma DependencyTitleByCharacter(before: string, c: char, after: string)
    ensures ReplaceEach(before + [c] + after, DependencyTitleRewrite)
         == ReplaceEach(before, DependencyTitleRewrite)
              + (if c == '[' || c == ']' then "" else if c == '\n' || c == '\r' then " " else [c])
              + ReplaceEach(after, DependencyTitleRewrite)
  {
    ReplaceInPlace(before, c, after, DependencyTitleRewrite);
  }

  predicate IsBracket(c: char) {
    c == '[' || c == ']'
  }

  lemma DependencyCharacter(d: char, c: char)
    ensures c in DependencyTitleRewrite(d) <==> !IsBracket(d) && c == if IsLineBreak(d) then ' ' else d
  {
  }

  lemma {:induction false} CleanedDependencyCharacters(title: string, c: char)
    ensures c in ReplaceEach(title, DependencyTitleRewrite) <==>
              || (c in title && !IsBracket(c) && !IsLineBreak(c))
              || (c == ' ' && ('\n' in title || '\r' in title))
  {
    if title == "" {
    } else {
      CleanedDependencyCharacters(title[1..], c);
      DependencyCharacter(title[0], c);
      assert forall d :: d in title <==> d == title[0] || d in title[1..];
    }
  }

  lemma CleanedDependencyShowsIff(title: string)
    ensures ReplaceEach(title, DependencyTitleRewrite) != "" <==> exists c :: c in title && !IsBracket(c)
  {
    var cleaned := ReplaceEach(title, DependencyTitleRewrite);
    if cleaned != "" {
      assert cleaned[0] in cleaned;
      CleanedDependencyCharacters(title, cleaned[0]);
      assert '\n' in title ==> !IsBracket('\n');
      assert '\r' in title ==> !IsBracket('\r');
    }
    if c :| c in title && !IsBracket(c) {
      CleanedDependencyCharacters(title, if IsLineBreak(c) then ' ' else c);
    }
  }

  lemma CleanedDependencyControlsIff(title: string)
    ensures NoControls(ReplaceEach(title, DependencyTitleRewrite)) <==> OnlyLineControls(title)
  {
    var cleaned := ReplaceEach(title, DependencyTitleRewrite);
    forall c | IsControl(c)
      ensures c in cleaned <==> c in title && !IsLineBreak(c)
    {
      CleanedDependencyCharacters(title, c);
    }
    assert NoControls(cleaned) <==> forall c | IsControl(c) :: c !in cleaned;
    assert OnlyLineControls(title) <==> forall c | IsControl(c) :: !(c in title && !IsLineBreak(c));
  }

  /** No control character and no angle bracket. */
  predicate LinkSafe(url: string) {
    NoControls(url) && '<' !in url && '>' !in url
  }

  lemma LinkSafeIff(url: string)
    ensures LinkSafe(url) <==> !HasControl(url) && !ContainsAny(url, "<>")
  {
    NoControlsIff(url);
    if '<' in url || '>' in url {
      var i :| 0 <= i < |url| && (url[i] == '<' || url[i] == '>');
      assert url[i] in "<>";
    }
  }

  /** A reported source is accepted exactly when its URL parses as https with a host name and without
      credentials, the URL and its canonical form are safe inside a link, and the trimmed title has a
      character other than brackets and no control character but line breaks. Then it is kept under its
      canonical URL, its title without brackets and with line breaks made blanks. */
  lemma DependencyAcceptedIff(source: Source, parse: UrlParser)
    ensures VerifiedSource(source, parse).Some? <==>
              && parse(source.url).Some?
              && var url, title := parse(source.url).value, TrimSpace(source.title);
              && url.scheme == "https" && url.hostname != "" && !url.hasUser
              && LinkSafe(source.url) && LinkSafe(url.canonical)
              && (exists c :: c in title && !IsBracket(c)) && OnlyLineControls(title)
    ensures VerifiedSource(source, parse).Some? ==>
              VerifiedSource(source, parse).value ==
                Source(ReplaceEach(TrimSpace(source.title), DependencyTitleRewrite), parse(source.url).value.canonical)
  {
    LinkSafeIff(source.url);
    if parse(source.url).Some? {
      LinkSafeIff(parse(source.url).value.canonical);
    }
    CleanedDependencyShowsIff(TrimSpace(source.title));
    CleanedDependencyControlsIff(TrimSpace(source.title));
    NoControlsIff(ReplaceEach(TrimSpace(source.title), DependencyTitleRewrite));
  }
}
