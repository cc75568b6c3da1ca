/**
 Bytes, fixed-width big-endian integers, and the order that comparing byte
 strings gives. Texts are modelled by their UTF-8 bytes.
 */
module Bytes {
  const TWO64: nat := 0x1_0000_0000_0000_0000

  type byte = x: int | 0 <= x < 256

  const TWO32: nat := 0x1_0000_0000

  type u16 = x: int | 0 <= x < 0x1_0000

  type u32 = x: int | 0 <= x < TWO32

  type u64 = x: int | 0 <= x < TWO64

  /** A list whose length fits the 64-bit lengths the formats carry. */
  type Vec<T> = s: seq<T> | |s| < TWO64 witness []

  type Text = Vec<byte>

  function Pow256(w: nat): (p: nat)
    ensures p > 0
  {
    if w == 0 then 1 else 256 * Pow256(w - 1)
  }

  /** The low `w` bytes of `n`, most significant first. */
  function BigEndian(w: nat, n: nat): (s: seq<byte>)
    ensures |s| == w
  {
    if w == 0 then [] else BigEndian(w - 1, n / 256) + [n % 256]
  }

  function FromBigEndian(s: seq<byte>): (n: nat)
    ensures n < Pow256(|s|)
  {
    if s == [] then 0 else 256 * FromBigEndian(s[..|s| - 1]) + s[|s| - 1]
  }

  lemma Pow256Values()
    ensures Pow256(1) == 0x100 && Pow256(2) == 0x1_0000
    ensures Pow256(4) == 0x1_0000_0000 && Pow256(8) == TWO64
  {}

  lemma {:induction false} BigEndianRoundTrip(w: nat, n: nat)
    requires n < Pow256(w)
    ensures FromBigEndian(BigEndian(w, n)) == n
  {
    if w > 0 {
      BigEndianRoundTrip(w - 1, n / 256);
      assert BigEndian(w, n)[..w - 1] == BigEndian(w - 1, n / 256);
    }
  }

  lemma {:induction false} FromBigEndianRoundTrip(s: seq<byte>)
    ensures BigEndian(|s|, FromBigEndian(s)) == s
  {
    if s != [] {
      FromBigEndianRoundTrip(s[..|s| - 1]);
      assert FromBigEndian(s) / 256 == FromBigEndian(s[..|s| - 1]);
      assert s == s[..|s| - 1] + [s[|s| - 1]];
    }
  }

  /** Rust's `[u8]` order: bytewise, a proper prefix first. */
  predicate BytesLess(a: seq<byte>, b: seq<byte>) {
    if b == [] then false
    else if a == [] then true
    else if a[0] != b[0] then a[0] < b[0]
    else BytesLess(a[1..], b[1..])
  }

  lemma {:induction false} BytesLessTrichotomy(a: seq<byte>, b: seq<byte>)
    ensures BytesLess(a, b) || a == b || BytesLess(b, a)
    ensures !(BytesLess(a, b) && BytesLess(b, a))
    ensures !BytesLess(a, a)
  {
    if a != [] {
      BytesLessTrichotomy(a[1..], if b == [] then [] else b[1..]);
      assert a == [a[0]] + a[1..];
      if b != [] {
        assert b == [b[0]] + b[1..];
      }
    }
  }

  lemma {:induction false} BytesLessTransitive(a: seq<byte>, b: seq<byte>, c: seq<byte>)
    requires BytesLess(a, b) && BytesLess(b, c)
    ensures BytesLess(a, c)
  {
    if a != [] && a[0] == b[0] == c[0] {
      BytesLessTransitive(a[1..], b[1..], c[1..]);
    }
  }

  /** Strings of equal length that differ are ordered whatever follows them. */
  lemma {:induction false} BytesLessAppend(a: seq<byte>, b: seq<byte>, x: seq<byte>, y: seq<byte>)
    requires |a| == |b| && BytesLess(a, b)
    ensures BytesLess(a + x, b + y)
  {
    assert (a + x)[1..] == a[1..] + x && (b + y)[1..] == b[1..] + y;
    if a[0] == b[0] {
      BytesLessAppend(a[1..], b[1..], x, y);
    }
  }

  /** A common prefix does not affect the order. */
  lemma {:induction false} BytesLessCommonPrefix(p: seq<byte>, a: seq<byte>, b: seq<byte>)
    ensures BytesLess(p + a, p + b) <==> BytesLess(a, b)
  {
    if p == [] {
      assert p + a == a && p + b == b;
    } else {
      assert (p + a)[1..] == p[1..] + a && (p + b)[1..] == p[1..] + b;
      BytesLessCommonPrefix(p[1..], a, b);
    }
  }

  /** Fixed-width big-endian integers sort as the integers they encode. */
  lemma {:induction false} BigEndianMonotone(w: nat, m: nat, n: nat)
    requires m < n < Pow256(w)
    ensures BytesLess(BigEndian(w, m), BigEndian(w, n))
  {
    if m / 256 < n / 256 {
      BigEndianMonotone(w - 1, m / 256, n / 256);
      BytesLessAppend(BigEndian(w - 1, m / 256), BigEndian(w - 1, n / 256), [m % 256], [n % 256]);
    } else {
      BytesLessCommonPrefix(BigEndian(w - 1, m / 256), [m % 256], [n % 256]);
    }
  }
}
