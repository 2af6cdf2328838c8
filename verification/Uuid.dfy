/** The text of a version 4 UUID (sections 4 and 5.4 of RFC 9562). */
module Uuid {
  import opened Prelude

  function HexDigit(n: bv8): char
    requires n < 16
  {
    "0123456789abcdef"[n as int]
  }

  function HexValue(c: char): Option<bv8> {
    if '0' <= c <= '9' then Some((c as int - '0' as int) as bv8)
    else if 'a' <= c <= 'f' then Some((c as int - 'a' as int + 10) as bv8)
    else None
  }

  lemma DigitRoundTrip(n: bv8)
    requires n < 16
    ensures HexValue(HexDigit(n)) == Some(n)
    ensures HexDigit(n) != '-'
  {
  }

  function HighNibble(b: bv8): (n: bv8) ensures n < 16 { b >> 4 }

  function LowNibble(b: bv8): (n: bv8) ensures n < 16 { b & 0x0f }

  function HexEncode(bytes: seq<bv8>): (s: string)
    ensures |s| == 2 * |bytes|
  {
    if bytes == [] then ""
    else [HexDigit(HighNibble(bytes[0])), HexDigit(LowNibble(bytes[0]))] + HexEncode(bytes[1..])
  }

  function HexDecode(s: string): Option<seq<bv8>> {
    if s == "" then Some([])
    else if |s| == 1 then None
    else
      var high, low, rest := HexValue(s[0]), HexValue(s[1]), HexDecode(s[2..]);
      if high.None? || low.None? || rest.None? then None
      else Some([(high.value << 4) | low.value] + rest.value)
  }

  lemma NibblesMakeByte(b: bv8)
    ensures (HighNibble(b) << 4) | LowNibble(b) == b
  {
  }

  lemma {:induction false} HexRoundTrip(bytes: seq<bv8>)
    ensures HexDecode(HexEncode(bytes)) == Some(bytes)
    ensures '-' !in HexEncode(bytes)
  {
    if bytes == [] {
    } else {
      HexRoundTrip(bytes[1..]);
      DigitRoundTrip(HighNibble(bytes[0]));
      DigitRoundTrip(LowNibble(bytes[0]));
      NibblesMakeByte(bytes[0]);
      assert HexEncode(bytes)[2..] == HexEncode(bytes[1..]);
      assert bytes == [bytes[0]] + bytes[1..];
    }
  }

  lemma {:induction false} HexEncodeAt(bytes: seq<bv8>, i: nat)
    requires i < |bytes|
    ensures HexEncode(bytes)[2 * i] == HexDigit(HighNibble(bytes[i]))
    ensures HexEncode(bytes)[2 * i + 1] == HexDigit(LowNibble(bytes[i]))
  {
    if i == 0 {
    } else {
      HexEncodeAt(bytes[1..], i - 1);
    }
  }

  lemma {:induction false} HexEncodeIsLower(bytes: seq<bv8>)
    ensures forall c | c in HexEncode(bytes) :: c in "0123456789abcdef"
  {
    if bytes == [] {
    } else {
      HexEncodeIsLower(bytes[1..]);
    }
  }

  /** The bytes with the version and variant bits forced, and nothing else. */
  function Force(random: seq<bv8>): (bytes: seq<bv8>)
    requires |random| == 16
    ensures |bytes| == 16
  {
    random[6 := (random[6] & 0x0f) | 0x40][8 := (random[8] & 0x3f) | 0x80]
  }

  /** The 8-4-4-4-12 form. */
  function Text(bytes: seq<bv8>): (t: string)
    requires |bytes| == 16
    ensures |t| == 36
  {
    var e := HexEncode(bytes);
    e[0..8] + "-" + e[8..12] + "-" + e[12..16] + "-" + e[16..20] + "-" + e[20..32]
  }

  /** Byte 6 keeps its low half, below the number 4; byte 8 keeps its low six bits, below the bits 10; every
      other byte is the random one. */
  predicate IsVersionFour(bytes: seq<bv8>, random: seq<bv8>)
    requires |random| == 16
  {
    && |bytes| == 16
    && (forall i | 0 <= i < 16 && i != 6 && i != 8 :: bytes[i] == random[i])
    && bytes[6] % 16 == random[6] % 16 && bytes[6] / 16 == 4
    && bytes[8] % 64 == random[8] % 64 && bytes[8] / 64 == 2
  }

  lemma ForceMakesVersionFour(random: seq<bv8>)
    requires |random| == 16
    ensures IsVersionFour(Force(random), random)
  {
    ForcedParts(random[6], random[8]);
  }

  /** The text of 16 random bytes, which reads back as those bytes with the version and variant forced. */
  method NewUuid(random: seq<bv8>) returns (text: string)
    requires |random| == 16
    ensures text == Text(Force(random))
    ensures HexDecode(WithoutHyphens(text)).Some?
    ensures IsVersionFour(HexDecode(WithoutHyphens(text)).value, random)
  {
    var identifier := new bv8[16](i requires 0 <= i < 16 => random[i]);
    assert identifier[..] == random;
    identifier[6] := (identifier[6] & 0x0f) | 0x40;
    identifier[8] := (identifier[8] & 0x3f) | 0x80;
    assert identifier[..] == Force(random);
    var encoded := HexEncode(identifier[..]);
    text :=
      encoded[0..8] + "-" + encoded[8..12] + "-" + encoded[12..16] + "-" + encoded[16..20] + "-" + encoded[20..32];
    assert text == Text(Force(random));
    ReadsBack(random, text);
  }

  lemma ReadsBack(random: seq<bv8>, text: string)
    requires |random| == 16 && text == Text(Force(random))
    ensures HexDecode(WithoutHyphens(text)).Some?
    ensures IsVersionFour(HexDecode(WithoutHyphens(text)).value, random)
  {
    TextRoundTrip(Force(random));
    ForceMakesVersionFour(random);
  }

  function WithoutHyphens(s: string): string {
    if s == "" then ""
    else if s[0] == '-' then WithoutHyphens(s[1..])
    else [s[0]] + WithoutHyphens(s[1..])
  }

  lemma {:induction false} WithoutHyphensGroup(group: string, rest: string)
    requires '-' !in group
    ensures WithoutHyphens(group + ("-" + rest)) == group + WithoutHyphens(rest)
  {
    var s := group + ("-" + rest);
    if group == "" {
      assert s == "-" + rest && s[1..] == rest;
    } else {
      assert s[1..] == group[1..] + ("-" + rest);
      WithoutHyphensGroup(group[1..], rest);
      assert group == [group[0]] + group[1..];
    }
  }

  lemma {:induction false} WithoutHyphensId(s: string)
    requires '-' !in s
    ensures WithoutHyphens(s) == s
  {
    if s == "" {
    } else {
      WithoutHyphensId(s[1..]);
    }
  }

  lemma Regroup(before: string, group: string, rest: string)
    ensures before + "-" + group + rest == before + ("-" + (group + rest))
    ensures rest == "" ==> before + "-" + group == before + ("-" + group)
  {
  }

  lemma FiveGroups(a: string, b: string, c: string, d: string, e: string)
    requires '-' !in a && '-' !in b && '-' !in c && '-' !in d && '-' !in e
    ensures WithoutHyphens(a + "-" + b + "-" + c + "-" + d + "-" + e) == a + (b + (c + (d + e)))
  {
    Regroup(a + "-" + b + "-" + c + "-" + d, e, "");
    Regroup(a + "-" + b + "-" + c, d, "-" + e);
    Regroup(a + "-" + b, c, "-" + (d + ("-" + e)));
    Regroup(a, b, "-" + (c + ("-" + (d + ("-" + e)))));
    WithoutHyphensGroup(a, b + ("-" + (c + ("-" + (d + ("-" + e))))));
    WithoutHyphensGroup(b, c + ("-" + (d + ("-" + e))));
    WithoutHyphensGroup(c, d + ("-" + e));
    WithoutHyphensGroup(d, e);
    WithoutHyphensId(e);
  }

  /** Removing the hyphens and decoding the hexadecimal digits gives back the bytes. */
  lemma TextRoundTrip(bytes: seq<bv8>)
    requires |bytes| == 16
    ensures HexDecode(WithoutHyphens(Text(bytes))) == Some(bytes)
  {
    var e := HexEncode(bytes);
    HexRoundTrip(bytes);
    FiveGroups(e[0..8], e[8..12], e[12..16], e[16..20], e[20..32]);
    assert e[0..8] + (e[8..12] + (e[12..16] + (e[16..20] + e[20..32]))) == e;
  }

  lemma ForcedParts(x: bv8, y: bv8)
    ensures ((x & 0x0f) | 0x40) % 16 == x % 16 && ((x & 0x0f) | 0x40) / 16 == 4
    ensures ((y & 0x3f) | 0x80) % 64 == y % 64 && ((y & 0x3f) | 0x80) / 64 == 2
  {
  }

  lemma ForcedNibbles(b: bv8)
    ensures HighNibble((b & 0x0f) | 0x40) == 4
    ensures HighNibble((b & 0x3f) | 0x80) in {8, 9, 10, 11}
  {
  }

  /** The printed form: 36 characters, hyphens exactly at four places, version 4, variant 8 to b. */
  lemma UuidShape(random: seq<bv8>)
    requires |random| == 16
    ensures var t := Text(Force(random));
      && |t| == 36
      && (forall i | 0 <= i < 36 :: t[i] == '-' <==> i in {8, 13, 18, 23})
      && t[14] == '4' && t[19] in "89ab"
      && (forall i | 0 <= i < 36 && t[i] != '-' :: t[i] in "0123456789abcdef")
  {
    HexEncodeIsLower(Force(random));
    var bytes := Force(random);
    var e, t := HexEncode(bytes), Text(bytes);
    HexRoundTrip(bytes);
    HexEncodeAt(bytes, 6);
    HexEncodeAt(bytes, 8);
    ForcedNibbles(random[6]);
    ForcedNibbles(random[8]);
    assert t[14] == e[12] && t[19] == e[16];
  }

  /** The 122 bits of the input that are not forced. */
  predicate SameRandomBits(a: seq<bv8>, b: seq<bv8>)
    requires |a| == |b| == 16
  {
    && a[6] & 0x0f == b[6] & 0x0f
    && a[8] & 0x3f == b[8] & 0x3f
    && forall i | 0 <= i < 16 && i != 6 && i != 8 :: a[i] == b[i]
  }

  lemma ForcedBitsAgree(x: bv8, y: bv8)
    ensures (x & 0x0f) | 0x40 == (y & 0x0f) | 0x40 <==> x & 0x0f == y & 0x0f
    ensures (x & 0x3f) | 0x80 == (y & 0x3f) | 0x80 <==> x & 0x3f == y & 0x3f
  {
  }

  lemma ForcedInputsAgreeIff(a: seq<bv8>, b: seq<bv8>)
    requires |a| == |b| == 16
    ensures Force(a) == Force(b) <==> SameRandomBits(a, b)
  {
    ForcedBitsAgree(a[6], b[6]);
    ForcedBitsAgree(a[8], b[8]);
    var x, y := Force(a), Force(b);
    assert forall i | 0 <= i < 16 && i != 6 && i != 8 :: x[i] == a[i] && y[i] == b[i];
    assert x[6] == (a[6] & 0x0f) | 0x40 && y[6] == (b[6] & 0x0f) | 0x40;
    assert x[8] == (a[8] & 0x3f) | 0x80 && y[8] == (b[8] & 0x3f) | 0x80;
    if SameRandomBits(a, b) {
      assert x == y;
    }
  }

  /** Two inputs print alike exactly when their other 122 bits agree. */
  lemma UuidsCollideIff(a: seq<bv8>, b: seq<bv8>)
    requires |a| == |b| == 16
    ensures Text(Force(a)) == Text(Force(b)) <==> SameRandomBits(a, b)
  {
    TextRoundTrip(Force(a));
    TextRoundTrip(Force(b));
    ForcedInputsAgreeIff(a, b);
  }
}
