/** Strings as sequences of Unicode code points: the parts of Go's `strings` and `unicode` that the
    source collection and the report use. */
module Text {
  import opened Prelude

  /** Unicode category Cc. */
  predicate IsControl(c: char) {
    c as int < 0x20 || 0x7F <= c as int <= 0x9F
  }

  /** Unicode White_Space. */
  predicate IsSpace(c: char) {
    var n := c as int;
    || 0x09 <= n <= 0x0D
    || n in {0x20, 0x85, 0xA0, 0x1680, 0x2028, 0x2029, 0x202F, 0x205F, 0x3000}
    || 0x2000 <= n <= 0x200A
  }

  /** The property White_Space, code point by code point. */
  predicate HasWhiteSpaceProperty(c: char) {
    c as int in {9, 10, 11, 12, 13, 32, 133, 160, 5760, 8192, 8193, 8194, 8195, 8196, 8197, 8198, 8199, 8200, 8201,
                 8202, 8232, 8233, 8239, 8287, 12288}
  }

  lemma SpaceIff(c: char)
    ensures IsSpace(c) <==> HasWhiteSpaceProperty(c)
  {
  }

  predicate HasControl(s: string) {
    exists i | 0 <= i < |s| :: IsControl(s[i])
  }

  predicate ContainsAny(s: string, chars: string) {
    exists i | 0 <= i < |s| :: s[i] in chars
  }

  function TrimSpace(s: string): string
    decreases |s|
  {
    if s == "" then ""
    else if IsSpace(s[0]) then TrimSpace(s[1..])
    else if IsSpace(s[|s| - 1]) then TrimSpace(s[..|s| - 1])
    else s
  }

  /** Trimming keeps characters of the string and leaves none that is white space at either end. */
  lemma {:induction false} TrimSpaceKeepsOnly(s: string)
    ensures forall i | 0 <= i < |TrimSpace(s)| :: TrimSpace(s)[i] in s
    ensures TrimSpace(s) != "" ==> !IsSpace(TrimSpace(s)[0]) && !IsSpace(TrimSpace(s)[|TrimSpace(s)| - 1])
    decreases |s|
  {
    if s == "" {
    } else {
      if IsSpace(s[0]) {
        TrimSpaceKeepsOnly(s[1..]);
      } else if IsSpace(s[|s| - 1]) {
        TrimSpaceKeepsOnly(s[..|s| - 1]);
      }
    }
  }

  lemma {:induction false} TrimSpaceCutsSpaces(s: string) returns (i: nat, j: nat)
    ensures i <= j <= |s| && TrimSpace(s) == s[i..j]
    ensures forall k | 0 <= k < i || j <= k < |s| :: IsSpace(s[k])
    decreases |s|
  {
    if s == "" {
      i, j := 0, 0;
    } else if IsSpace(s[0]) {
      i, j := TrimSpaceCutsSpaces(s[1..]);
      i, j := i + 1, j + 1;
      assert forall k | 1 <= k < |s| :: s[k] == s[1..][k - 1];
    } else if IsSpace(s[|s| - 1]) {
      i, j := TrimSpaceCutsSpaces(s[..|s| - 1]);
    } else {
      i, j := 0, |s|;
    }
  }

  /** Trimming takes a contiguous part: white space, by code point, is cut off at either end and none is
      left at either. */
  lemma TrimSpaceCuts(s: string) returns (i: nat, j: nat)
    ensures i <= j <= |s| && TrimSpace(s) == s[i..j]
    ensures forall k | 0 <= k < i || j <= k < |s| :: HasWhiteSpaceProperty(s[k])
    ensures i < j ==> !HasWhiteSpaceProperty(s[i]) && !HasWhiteSpaceProperty(s[j - 1])
  {
    i, j := TrimSpaceCutsSpaces(s);
    TrimSpaceKeepsOnly(s);
    forall k | 0 <= k < |s| {
      SpaceIff(s[k]);
    }
  }

  /** Nothing is left exactly when all is white space. */
  lemma TrimsToNothingIff(s: string)
    ensures TrimSpace(s) == "" <==> forall c | c in s :: IsSpace(c)
  {
    var i, j := TrimSpaceCutsSpaces(s);
    TrimSpaceKeepsOnly(s);
    if TrimSpace(s) == "" {
      assert i == j;
    } else {
      assert TrimSpace(s)[0] in s;
    }
  }

  /** A replacer whose old strings are single characters: each character is rewritten on its own. */
  function ReplaceEach(s: string, rewrite: char -> string): string {
    if s == "" then "" else rewrite(s[0]) + ReplaceEach(s[1..], rewrite)
  }

  lemma {:induction false} ReplaceEachRange(s: string, rewrite: char -> string, c: char)
    requires forall d :: c !in rewrite(d)
    ensures c !in ReplaceEach(s, rewrite)
  {
    if s == "" {
    } else {
      ReplaceEachRange(s[1..], rewrite, c);
    }
  }

  /** The characters of the result are those that some character is rewritten to. */
  lemma {:induction false} ReplaceEachIff(s: string, rewrite: char -> string, c: char)
    ensures c in ReplaceEach(s, rewrite) <==> exists d :: d in s && c in rewrite(d)
  {
    if s == "" {
    } else {
      ReplaceEachIff(s[1..], rewrite, c);
      assert forall d :: d in s <==> d == s[0] || d in s[1..];
    }
  }

  lemma {:induction false} ReplaceConcat(a: string, b: string, rewrite: char -> string)
    ensures ReplaceEach(a + b, rewrite) == ReplaceEach(a, rewrite) + ReplaceEach(b, rewrite)
  {
    if a == "" {
      assert a + b == b;
    } else {
      assert (a + b)[1..] == a[1..] + b;
      ReplaceConcat(a[1..], b, rewrite);
    }
  }

  /** Each character is rewritten where it stands. */
  lemma ReplaceInPlace(before: string, c: char, after: string, rewrite: char -> string)
    ensures ReplaceEach(before + [c] + after, rewrite)
         == ReplaceEach(before, rewrite) + rewrite(c) + ReplaceEach(after, rewrite)
  {
    ReplaceConcat(before, [c], rewrite);
    ReplaceConcat(before + [c], after, rewrite);
    assert [c][1..] == "";
  }

  predicate OccursAt(s: string, pattern: string, i: nat) {
    i + |pattern| <= |s| && s[i..i + |pattern|] == pattern
  }

  ghost predicate Contains(s: string, pattern: string) {
    exists i: nat :: OccursAt(s, pattern, i)
  }

  /** The first place `pattern` occurs in `s`. */
  function IndexOf(s: string, pattern: string): (r: Option<nat>)
    ensures r.None? <==> !Contains(s, pattern)
    ensures r.Some? ==> OccursAt(s, pattern, r.value) && forall j: nat | j < r.value :: !OccursAt(s, pattern, j)
  {
    IndexFrom(s, pattern, 0)
  }

  function IndexFrom(s: string, pattern: string, start: nat): (r: Option<nat>)
    ensures r.None? ==> forall j: nat | start <= j :: !OccursAt(s, pattern, j)
    ensures r.Some? ==> start <= r.value && OccursAt(s, pattern, r.value)
    ensures r.Some? ==> forall j: nat | start <= j < r.value :: !OccursAt(s, pattern, j)
    decreases |s| - start
  {
    if OccursAt(s, pattern, start) then Some(start)
    else if start >= |s| then None
    else IndexFrom(s, pattern, start + 1)
  }

  /** The length of the longest prefix of `s` without `c`. */
  function SpanUntil(s: string, c: char): (n: nat)
    ensures n <= |s|
  {
    if s == "" || s[0] == c then 0 else 1 + SpanUntil(s[1..], c)
  }

  lemma {:induction false} SpanUntilStops(prefix: string, c: char, rest: string)
    requires c !in prefix
    ensures SpanUntil(prefix + [c] + rest, c) == |prefix|
  {
    var s := prefix + [c] + rest;
    if prefix == "" {
    } else {
      assert s[1..] == prefix[1..] + [c] + rest;
      SpanUntilStops(prefix[1..], c, rest);
    }
  }

  /** Reads a field that follows `open` and ends before the first `stop`, with what comes after. */
  function ReadField(text: string, open: string, stop: char): (r: Option<(string, string)>)
    ensures r.Some? ==> |r.value.1| + |open| <= |text|
  {
    if !(open <= text) then None
    else
      var n := SpanUntil(text[|open|..], stop);
      Some((text[|open|..][..n], text[|open|..][n..]))
  }

  lemma FieldRoundTrip(open: string, field: string, stop: char, rest: string)
    requires stop !in field
    ensures ReadField(open + field + [stop] + rest, open, stop) == Some((field, [stop] + rest))
  {
    var text := open + field + [stop] + rest;
    assert text[|open|..] == field + [stop] + rest;
    assert open <= text;
    SpanUntilStops(field, stop, rest);
    assert text[|open|..][|field|..] == [stop] + rest;
    assert text[|open|..][..|field|] == field;
  }

  lemma OccursByCharacter(s: string, pattern: string, i: nat)
    requires OccursAt(s, pattern, i)
    ensures forall k | 0 <= k < |pattern| :: s[i + k] == pattern[k]
  {
    forall k | 0 <= k < |pattern|
      ensures s[i + k] == pattern[k]
    {
      assert s[i..i + |pattern|][k] == s[i + k];
    }
  }

  lemma Pieces(a: string, b: string, c: string, d: string)
    ensures a + b + c + d == a + b + (c + d)
    ensures (a + b + c + d)[..|a|] == a
    ensures (a + b + c + d)[|a| + |b| + |c|..] == d
  {
  }

  function Join(lines: seq<string>, separator: string): string
  {
    if lines == [] then ""
    else if |lines| == 1 then lines[0]
    else Join(lines[..|lines| - 1], separator) + separator + lines[|lines| - 1]
  }
}
