/**
 The text operations the agent modules apply to identifiers: `trim`,
 `to_ascii_lowercase` and hex printing, on UTF-8 bytes.
 */
module Texts {
  import opened Bytes

  /** The bytes of an ASCII literal; any other character would become '?'. */
  function Ascii(s: string): (t: seq<byte>)
    ensures |t| == |s|
  {
    seq(|s|, i requires 0 <= i < |s| => if s[i] < 128 as char then s[i] as int else 63)
  }

  // The Unicode White_Space characters, by the length of their UTF-8 form.

  predicate IsSpace1(a: byte) { 9 <= a <= 13 || a == 32 }

  predicate IsSpace2(a: byte, b: byte) { a == 0xc2 && (b == 0x85 || b == 0xa0) }

  predicate IsSpace3(a: byte, b: byte, c: byte) {
    || (a == 0xe1 && b == 0x9a && c == 0x80)
    || (a == 0xe2 && b == 0x80 && (0x80 <= c <= 0x8a || c == 0xa8 || c == 0xa9 || c == 0xaf))
    || (a == 0xe2 && b == 0x81 && c == 0x9f)
    || (a == 0xe3 && b == 0x80 && c == 0x80)
  }

  /** The length of the whitespace character `t` starts with, or 0. */
  function LeadingSpace(t: seq<byte>): (n: nat)
    ensures n <= |t|
  {
    if |t| >= 1 && IsSpace1(t[0]) then 1
    else if |t| >= 2 && IsSpace2(t[0], t[1]) then 2
    else if |t| >= 3 && IsSpace3(t[0], t[1], t[2]) then 3
    else 0
  }

  /** The length of the whitespace character `t` ends with, or 0. */
  function TrailingSpace(t: seq<byte>): (n: nat)
    ensures n <= |t|
  {
    var n := |t|;
    if n >= 1 && IsSpace1(t[n - 1]) then 1
    else if n >= 2 && IsSpace2(t[n - 2], t[n - 1]) then 2
    else if n >= 3 && IsSpace3(t[n - 3], t[n - 2], t[n - 1]) then 3
    else 0
  }

  function TrimStart(t: seq<byte>): (r: seq<byte>)
    ensures |r| <= |t| && LeadingSpace(r) == 0
  {
    var n := LeadingSpace(t);
    if n == 0 then t else TrimStart(t[n..])
  }

  function TrimEnd(t: seq<byte>): (r: seq<byte>)
    ensures r <= t && TrailingSpace(r) == 0
  {
    var n := TrailingSpace(t);
    if n == 0 then t else TrimEnd(t[..|t| - n])
  }

  function Trim(t: seq<byte>): (r: seq<byte>)
    ensures |r| <= |t|
  {
    TrimEnd(TrimStart(t))
  }

  function LowerByte(b: byte): byte { if 65 <= b <= 90 then b + 32 else b }

  function Lower(t: seq<byte>): (r: seq<byte>)
    ensures |r| == |t| && forall i :: 0 <= i < |t| ==> r[i] == LowerByte(t[i])
  {
    seq(|t|, i requires 0 <= i < |t| => LowerByte(t[i]))
  }

  /** `trim().to_ascii_lowercase()`. */
  function Normalize(t: Text): (r: Text)
    ensures |r| <= |t|
  {
    Lower(Trim(t))
  }

  lemma TrimIsTrimmed(t: seq<byte>)
    ensures LeadingSpace(Trim(t)) == 0 && TrailingSpace(Trim(t)) == 0
  {}

  lemma LeadingSpaceLower(t: seq<byte>)
    ensures LeadingSpace(Lower(t)) == LeadingSpace(t)
  {}

  lemma TrailingSpaceLower(t: seq<byte>)
    ensures TrailingSpace(Lower(t)) == TrailingSpace(t)
  {}

  lemma {:induction false} TrimStartLower(t: seq<byte>)
    ensures TrimStart(Lower(t)) == Lower(TrimStart(t))
  {
    hide LeadingSpace, Lower;
    var n := LeadingSpace(t);
    LeadingSpaceLower(t);
    if n > 0 {
      assert Lower(t)[n..] == Lower(t[n..]);
      TrimStartLower(t[n..]);
    }
  }

  lemma {:induction false} TrimEndLower(t: seq<byte>)
    ensures TrimEnd(Lower(t)) == Lower(TrimEnd(t))
  {
    hide TrailingSpace, Lower;
    var n := TrailingSpace(t);
    TrailingSpaceLower(t);
    if n > 0 {
      assert Lower(t)[..|t| - n] == Lower(t[..|t| - n]);
      TrimEndLower(t[..|t| - n]);
    }
  }

  /** Whitespace characters only, read from the front. */
  predicate Spaces(t: seq<byte>) {
    t == [] || (LeadingSpace(t) > 0 && Spaces(t[LeadingSpace(t)..]))
  }

  /** Whitespace characters only, read from the back. */
  predicate SpacesBack(t: seq<byte>) {
    t == [] || (TrailingSpace(t) > 0 && SpacesBack(t[..|t| - TrailingSpace(t)]))
  }

  lemma LeadingSpacePrefix(t: seq<byte>, k: nat)
    requires LeadingSpace(t) <= k <= |t| && LeadingSpace(t) > 0
    ensures LeadingSpace(t[..k]) == LeadingSpace(t)
  {}

  lemma TrailingSpaceSuffix(t: seq<byte>, k: nat)
    requires TrailingSpace(t) <= |t| - k && k <= |t| && TrailingSpace(t) > 0
    ensures TrailingSpace(t[k..]) == TrailingSpace(t)
  {}

  lemma {:induction false} TrimStartExact(t: seq<byte>) returns (k: nat)
    ensures k <= |t| && TrimStart(t) == t[k..] && Spaces(t[..k])
  {
    hide LeadingSpace;
    var n := LeadingSpace(t);
    if n == 0 {
      k := 0;
    } else {
      var rest := TrimStartExact(t[n..]);
      k := n + rest;
      LeadingSpacePrefix(t, k);
      assert t[..k][n..] == t[n..][..rest];
    }
  }

  lemma {:induction false} TrimEndExact(t: seq<byte>)
    ensures TrimEnd(t) == t[..|TrimEnd(t)|] && SpacesBack(t[|TrimEnd(t)|..])
  {
    hide TrailingSpace;
    var n, k := TrailingSpace(t), |TrimEnd(t)|;
    if n > 0 {
      var shorter := t[..|t| - n];
      TrimEndExact(shorter);
      TrailingSpaceSuffix(t, k);
      assert t[k..][..|t| - k - n] == shorter[k..];
    }
  }

  /** `trim` cuts whitespace off both ends, all of it and nothing else. */
  lemma TrimExact(t: seq<byte>) returns (lead: seq<byte>, trail: seq<byte>)
    ensures t == lead + Trim(t) + trail && Spaces(lead) && SpacesBack(trail)
    ensures LeadingSpace(Trim(t)) == 0 && TrailingSpace(Trim(t)) == 0
  {
    hide Spaces, SpacesBack, TrimStart, TrimEnd, LeadingSpace, TrailingSpace;
    var k := TrimStartExact(t);
    var u := TrimStart(t);
    TrimEndExact(u);
    TrimIsTrimmed(t);
    lead, trail := t[..k], u[|Trim(t)|..];
  }

  lemma NormalizeIdempotent(t: Text)
    ensures Normalize(Normalize(t)) == Normalize(t)
    ensures Trim(Normalize(t)) == Normalize(t)
  {
    var u := Trim(t);
    TrimIsTrimmed(t);
    TrimStartLower(u);
    TrimEndLower(TrimStart(u));
    assert Lower(Lower(u)) == Lower(u);
  }

  function HexDigit(d: nat): byte
    requires d < 16
  {
    if d < 10 then 48 + d else 87 + d
  }

  /** `hex::encode`. */
  function Hex(s: seq<byte>): (t: seq<byte>)
    ensures |t| == 2 * |s|
  {
    if s == [] then [] else [HexDigit(s[0] / 16), HexDigit(s[0] % 16)] + Hex(s[1..])
  }

  lemma {:induction false} HexInjective(a: seq<byte>, b: seq<byte>)
    requires Hex(a) == Hex(b)
    ensures a == b
  {
    if a != [] {
      assert Hex(a)[0] == Hex(b)[0] && Hex(a)[1] == Hex(b)[1];
      assert Hex(a)[2..] == Hex(a[1..]) && Hex(b)[2..] == Hex(b[1..]);
      HexInjective(a[1..], b[1..]);
      assert a[0] == b[0];
      assert a == [a[0]] + a[1..] && b == [b[0]] + b[1..];
    }
  }

  // ----- The characters -----

  /** The code points with the Unicode property White_Space. */
  predicate IsWhiteSpace(c: nat) {
    || 0x09 <= c <= 0x0d || c == 0x20 || c == 0x85 || c == 0xa0 || c == 0x1680 || 0x2000 <= c <= 0x200a
    || c == 0x2028 || c == 0x2029 || c == 0x202f || c == 0x205f || c == 0x3000
  }

  /** The UTF-8 form of a code point below 0x10000. */
  function Utf8(c: nat): seq<byte>
    requires c < 0x1_0000
  {
    if c < 0x80 then [c]
    else if c < 0x800 then [0xc0 + c / 64, 0x80 + c % 64]
    else [0xe0 + c / 4096, 0x80 + c / 64 % 64, 0x80 + c % 64]
  }

  predicate StartsWithSpace(t: seq<byte>, c: nat) { c < 0x1_0000 && IsWhiteSpace(c) && Utf8(c) <= t }

  /** The whitespace character a nonzero `LeadingSpace` has found. */
  function SpaceFound(t: seq<byte>): (c: nat)
    requires LeadingSpace(t) > 0
    ensures StartsWithSpace(t, c)
  {
    if LeadingSpace(t) == 1 then t[0]
    else if LeadingSpace(t) == 2 then t[1]
    else if t[0] == 0xe1 then 0x1680
    else if t[0] == 0xe3 then 0x3000
    else if t[1] == 0x81 then 0x205f
    else 0x2000 + (t[2] as int - 0x80)
  }

  lemma SpaceIsFound(t: seq<byte>, c: nat)
    requires StartsWithSpace(t, c)
    ensures c < 0x1_0000 && LeadingSpace(t) == |Utf8(c)| > 0
  {
    var u := Utf8(c);
    assert t[0] == u[0] && (|u| > 1 ==> t[1] == u[1]) && (|u| > 2 ==> t[2] == u[2]);
  }

  /** What is trimmed is exactly whitespace characters, by their UTF-8 forms. */
  lemma LeadingSpaceExact(t: seq<byte>)
    ensures LeadingSpace(t) > 0 <==> exists c :: StartsWithSpace(t, c)
    ensures forall c :: StartsWithSpace(t, c) ==> LeadingSpace(t) == |Utf8(c)|
  {
    hide LeadingSpace, StartsWithSpace;
    if LeadingSpace(t) > 0 {
      var c := SpaceFound(t);
    }
    forall c | StartsWithSpace(t, c)
      ensures c < 0x1_0000 && LeadingSpace(t) == |Utf8(c)| > 0
    {
      SpaceIsFound(t, c);
    }
  }

  /** Lower-casing changes the 26 upper-case ASCII letters, and nothing else. */
  lemma LowerByteExact(b: byte)
    ensures 'A' as int <= b <= 'Z' as int ==> LowerByte(b) - b == 'a' as int - 'A' as int
    ensures !('A' as int <= b <= 'Z' as int) ==> LowerByte(b) == b
  {}

  /** Two digits for each byte, the high one first. */
  lemma {:induction false} HexExact(s: seq<byte>, i: nat)
    requires i < |s|
    ensures Hex(s)[2 * i] == Ascii("0123456789abcdef")[s[i] / 16]
    ensures Hex(s)[2 * i + 1] == Ascii("0123456789abcdef")[s[i] % 16]
  {
    hide Ascii;
    HexDigitExact(s[i] / 16);
    HexDigitExact(s[i] % 16);
    if i > 0 {
      HexExact(s[1..], i - 1);
    }
  }

  lemma HexDigitExact(d: nat)
    requires d < 16
    ensures HexDigit(d) == Ascii("0123456789abcdef")[d]
  {}
}
