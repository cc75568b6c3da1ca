/**
 The deterministic CBOR encoder of `passless-core/src/agent/policy.rs` (module
 `cbor`): heads in the shortest form, text and byte strings, arrays, and maps
 whose keys are ordered by length and then bytewise. `Decode` is the reference
 the encoder is measured against.
 */
module Cbor {
  import opened Wrappers
  import opened Bytes
  import opened Ordering

  type Major = m: int | 0 <= m < 8

  /** The low five bits of the initial byte: a small argument, or its width. */
  function Info(n: u64): (info: nat)
    ensures info <= 27
  {
    if n <= 23 then n
    else if n <= 0xff then 24
    else if n <= 0xffff then 25
    else if n <= 0xffff_ffff then 26
    else 27
  }

  /** How many argument bytes follow an initial byte with this low part. */
  function Width(info: nat): (w: nat)
    requires info <= 27
    ensures w <= 8
  {
    if info <= 23 then 0 else if info == 24 then 1 else if info == 25 then 2 else if info == 26 then 4 else 8
  }

  /** `encode_type_and_length`: the initial byte and the argument that follows it. */
  function Head(major: Major, n: u64): (s: seq<byte>)
    ensures |s| > 0
  {
    [32 * major + Info(n)] + BigEndian(Width(Info(n)), n)
  }

  /** The heads of section 3 of RFC 8949, shortest form first. */
  lemma HeadBytes(major: Major, n: u64)
    ensures n < 24 ==> Head(major, n) == [32 * major + n]
    ensures 24 <= n < 0x100 ==> Head(major, n) == [32 * major + 24] + BigEndian(1, n)
    ensures 0x100 <= n < 0x1_0000 ==> Head(major, n) == [32 * major + 25] + BigEndian(2, n)
    ensures 0x1_0000 <= n < 0x1_0000_0000 ==> Head(major, n) == [32 * major + 26] + BigEndian(4, n)
    ensures 0x1_0000_0000 <= n ==> Head(major, n) == [32 * major + 27] + BigEndian(8, n)
  {
    assert BigEndian(0, n) == [];
    hide BigEndian;
  }

  function EncodeUint(n: u64): seq<byte> { Head(0, n) }

  function EncodeBool(v: bool): seq<byte> { if v then [0xf5] else [0xf4] }

  function EncodeText(t: Text): seq<byte> { Head(3, |t|) + t }

  function EncodeByteString(b: Text): seq<byte> { Head(2, |b|) + b }

  function Concat(parts: seq<seq<byte>>): seq<byte> {
    if parts == [] then [] else parts[0] + Concat(parts[1..])
  }

  function ArrayBytes(items: Vec<seq<byte>>): seq<byte> {
    Head(4, |items|) + Concat(items)
  }

  /** A map entry whose value is already encoded. */
  type RawEntry = (Text, seq<byte>)

  function RawKey(e: RawEntry): Text { e.0 }

  function RawEntryBytes(e: RawEntry): seq<byte> { EncodeText(e.0) + e.1 }

  function MapBytes(entries: Vec<RawEntry>): seq<byte> {
    Head(5, |entries|) + Concat(Mapped(entries, RawEntryBytes))
  }

  /** The comparison `encode_map_sorted` sorts with. */
  predicate LengthFirst(a: Text, b: Text) {
    |a| < |b| || (|a| == |b| && BytesLess(a, b))
  }

  lemma {:induction false} ConcatAppend(a: seq<seq<byte>>, b: seq<seq<byte>>)
    ensures Concat(a + b) == Concat(a) + Concat(b)
  {
    if a == [] {
      assert a + b == b;
    } else {
      ConcatAppend(a[1..], b);
      assert (a + b)[1..] == a[1..] + b;
      assert Concat(a + b) == a[0] + Concat(a[1..] + b);
    }
  }

  lemma ConcatNext(parts: seq<seq<byte>>, i: nat)
    requires i < |parts|
    ensures Concat(parts[..i + 1]) == Concat(parts[..i]) + parts[i]
  {
    ConcatAppend(parts[..i], [parts[i]]);
    assert parts[..i] + [parts[i]] == parts[..i + 1];
  }

  method EncodeArray(items: Vec<seq<byte>>) returns (result: seq<byte>)
    ensures result == ArrayBytes(items)
  {
    result := Head(4, |items|);
    for i := 0 to |items|
      invariant result == Head(4, |items|) + Concat(items[..i])
    {
      ConcatNext(items, i);
      result := result + items[i];
    }
    assert items[..|items|] == items;
  }

  method EncodeMapSorted(entries: Vec<RawEntry>) returns (result: seq<byte>)
    ensures result == MapBytes(StableSort(entries, RawKey, LengthFirst))
  {
    var sorted := StableSort(entries, RawKey, LengthFirst);
    ghost var parts := Mapped(sorted, RawEntryBytes);
    var header := Head(5, |sorted|);
    result := header;
    for i := 0 to |sorted|
      invariant result == header + Concat(parts[..i])
    {
      ConcatNext(parts, i);
      ghost var before := result;
      var key := EncodeText(sorted[i].0);
      result := result + key;
      result := result + sorted[i].1;
      assert result == before + (key + sorted[i].1);
    }
    assert parts[..|parts|] == parts;
  }

  // ----- The order of map keys -----

  /** The order Rust gives `String`s. */
  predicate TextLess(a: Text, b: Text) { BytesLess(a, b) }

  lemma LengthFirstIsTotal()
    ensures StrictTotalOrder(LengthFirst)
  {
    forall a: Text, b: Text
      ensures LengthFirst(a, b) || a == b || LengthFirst(b, a)
      ensures LengthFirst(a, b) ==> !LengthFirst(b, a)
    {
      BytesLessTrichotomy(a, b);
    }
    forall a: Text, b: Text, c: Text | LengthFirst(a, b) && LengthFirst(b, c)
      ensures LengthFirst(a, c)
    {
      if |a| == |b| == |c| {
        BytesLessTransitive(a, b, c);
      }
    }
  }

  lemma TextLessIsTotal()
    ensures StrictTotalOrder(TextLess)
  {
    forall a: Text, b: Text
      ensures TextLess(a, b) || a == b || TextLess(b, a)
      ensures TextLess(a, b) ==> !TextLess(b, a)
    {
      BytesLessTrichotomy(a, b);
    }
    forall a: Text, b: Text, c: Text | TextLess(a, b) && TextLess(b, c)
      ensures TextLess(a, c)
    {
      BytesLessTransitive(a, b, c);
    }
  }

  /** Heads of one major type are ordered as their arguments, whatever follows. */
  lemma HeadMonotone(major: Major, m: u64, n: u64, x: seq<byte>, y: seq<byte>)
    requires m < n
    ensures BytesLess(Head(major, m) + x, Head(major, n) + y)
  {
    var a, b := Head(major, m), Head(major, n);
    if a[0] == b[0] {
      var w := |a| - 1;
      ArgumentFits(n);
      BigEndianMonotone(w, m, n);
      BytesLessCommonPrefix([a[0]], BigEndian(w, m), BigEndian(w, n));
      BytesLessAppend(a, b, x, y);
    }
  }

  /**
   Ordering text keys by length and then bytewise is ordering their encodings
   bytewise: sections 4.2.1 and 4.2.3 of RFC 8949 agree on text keys.
   */
  lemma KeyOrdersAgree(a: Text, b: Text)
    ensures LengthFirst(a, b) <==> BytesLess(EncodeText(a), EncodeText(b))
  {
    BytesLessTrichotomy(EncodeText(a), EncodeText(b));
    if |a| < |b| {
      HeadMonotone(3, |a|, |b|, a, b);
    } else if |a| > |b| {
      HeadMonotone(3, |b|, |a|, b, a);
    } else {
      BytesLessCommonPrefix(Head(3, |a|), a, b);
    }
  }

  // ----- Data items and their decoder -----

  datatype Entry = Entry(key: Text, value: Item)

  datatype Item =
    | UInt(n: u64)
    | ByteString(b: Text)
    | TextString(t: Text)
    | Array(items: Vec<Item>)
    | Map(entries: Vec<Entry>)
    | Bool(v: bool)

  function Encode(item: Item): (s: seq<byte>)
    ensures |s| > 0
    decreases item
  {
    match item
    case UInt(n) => EncodeUint(n)
    case ByteString(b) => EncodeByteString(b)
    case TextString(t) => EncodeText(t)
    case Array(items) => Head(4, |items|) + EncodeItems(items)
    case Map(entries) => Head(5, |entries|) + EncodeEntries(entries)
    case Bool(v) => EncodeBool(v)
  }

  function EncodeItems(items: seq<Item>): seq<byte>
    decreases items
  {
    if items == [] then [] else Encode(items[0]) + EncodeItems(items[1..])
  }

  function EncodeEntries(entries: seq<Entry>): seq<byte>
    decreases entries
  {
    if entries == [] then []
    else EncodeText(entries[0].key) + Encode(entries[0].value) + EncodeEntries(entries[1..])
  }

  /** Reads a head, refusing an argument that a shorter form could carry. */
  function DecodeHead(s: seq<byte>): (r: Option<(Major, u64, seq<byte>)>)
    ensures r.Some? ==> |r.value.2| < |s|
  {
    if s == [] || s[0] % 32 > 27 || |s| - 1 < Width(s[0] % 32) then None
    else
      var major, info := s[0] / 32, s[0] % 32;
      var w := Width(info);
      var n := if w == 0 then info else FromBigEndian(s[1..1 + w]);
      if n < TWO64 && Info(n) == info then Some((major, n, s[1 + w..])) else None
  }

  function TakeText(n: u64, s: seq<byte>): (r: Option<(Text, seq<byte>)>)
    ensures r.Some? ==> |r.value.1| <= |s|
  {
    if |s| < n then None else Some((s[..n], s[n..]))
  }

  function DecodeKey(s: seq<byte>): (r: Option<(Text, seq<byte>)>)
    ensures r.Some? ==> |r.value.1| < |s|
  {
    match DecodeHead(s)
    case None => None
    case Some((major, n, rest)) => if major == 3 then TakeText(n, rest) else None
  }

  /** Reads one data item and returns it with the bytes after it. */
  function Decode(s: seq<byte>): (r: Option<(Item, seq<byte>)>)
    ensures r.Some? ==> |r.value.1| < |s|
    decreases |s|, 0
  {
    match DecodeHead(s)
    case None => None
    case Some((major, n, rest)) => DecodeBody(major, n, rest)
  }

  function DecodeBody(major: Major, n: u64, rest: seq<byte>): (r: Option<(Item, seq<byte>)>)
    ensures r.Some? ==> |r.value.1| <= |rest|
    decreases |rest|, 2
  {
    if major == 0 then Some((UInt(n), rest))
    else if major == 2 then
      match TakeText(n, rest)
      case None => None
      case Some((b, after)) => Some((ByteString(b), after))
    else if major == 3 then
      match TakeText(n, rest)
      case None => None
      case Some((t, after)) => Some((TextString(t), after))
    else if major == 4 then
      match DecodeItems(n, rest)
      case None => None
      case Some((items, after)) => Some((Array(items), after))
    else if major == 5 then
      match DecodeEntries(n, rest)
      case None => None
      case Some((entries, after)) => Some((Map(entries), after))
    else if major == 7 && (n == 20 || n == 21) then Some((Bool(n == 21), rest))
    else None
  }

  function DecodeItems(n: nat, s: seq<byte>): (r: Option<(seq<Item>, seq<byte>)>)
    ensures r.Some? ==> |r.value.0| == n && |r.value.1| <= |s|
    decreases |s|, 1
  {
    if n == 0 then Some(([], s))
    else
      match Decode(s)
      case None => None
      case Some((item, rest)) =>
        match DecodeItems(n - 1, rest)
        case None => None
        case Some((items, after)) => Some(([item] + items, after))
  }

  function DecodeEntries(n: nat, s: seq<byte>): (r: Option<(seq<Entry>, seq<byte>)>)
    ensures r.Some? ==> |r.value.0| == n && |r.value.1| <= |s|
    decreases |s|, 1
  {
    if n == 0 then Some(([], s))
    else
      match DecodeKey(s)
      case None => None
      case Some((key, afterKey)) =>
        match Decode(afterKey)
        case None => None
        case Some((value, afterValue)) =>
          match DecodeEntries(n - 1, afterValue)
          case None => None
          case Some((entries, after)) => Some(([Entry(key, value)] + entries, after))
  }

  lemma ArgumentFits(n: u64)
    ensures n > 23 ==> n < Pow256(Width(Info(n)))
  {
    Pow256Values();
  }

  lemma HeadRoundTrip(major: Major, n: u64, rest: seq<byte>)
    ensures DecodeHead(Head(major, n) + rest) == Some((major, n, rest))
  {
    ArgumentFits(n);
    if n > 23 {
      BigEndianRoundTrip(Width(Info(n)), n);
    }
    HeadSplits(major, n, rest);
  }

  lemma HeadSplits(major: Major, n: u64, rest: seq<byte>)
    ensures var s, w := Head(major, n) + rest, Width(Info(n));
      && s[0] / 32 == major && s[0] % 32 == Info(n) && |s| == 1 + w + |rest|
      && s[1..1 + w] == BigEndian(w, n) && s[1 + w..] == rest
  {}

  lemma KeyRoundTrip(t: Text, rest: seq<byte>)
    ensures DecodeKey(EncodeText(t) + rest) == Some((t, rest))
  {
    HeadRoundTrip(3, |t|, t + rest);
    assert EncodeText(t) + rest == Head(3, |t|) + (t + rest);
  }

  /** A decoded head is the shortest one: it is the head the encoder writes. */
  lemma HeadCanonical(s: seq<byte>)
    requires DecodeHead(s).Some?
    ensures var (major, n, rest) := DecodeHead(s).value; s == Head(major, n) + rest
  {
    hide Info, Width, BigEndian, FromBigEndian;
    var w := Width(s[0] % 32);
    FromBigEndianRoundTrip(s[1..1 + w]);
    assert 32 * (s[0] / 32) + s[0] % 32 == s[0];
    assert s == [s[0]] + s[1..1 + w] + s[1 + w..];
  }

  lemma KeyCanonical(s: seq<byte>)
    requires DecodeKey(s).Some?
    ensures s == EncodeText(DecodeKey(s).value.0) + DecodeKey(s).value.1
  {
    HeadCanonical(s);
  }

  lemma StringRoundTrip(t: Text, rest: seq<byte>)
    ensures Decode(EncodeByteString(t) + rest) == Some((ByteString(t), rest))
    ensures Decode(EncodeText(t) + rest) == Some((TextString(t), rest))
  {
    hide Head, DecodeHead;
    HeadRoundTrip(2, |t|, t + rest);
    HeadRoundTrip(3, |t|, t + rest);
    assert EncodeByteString(t) + rest == Head(2, |t|) + (t + rest);
    assert EncodeText(t) + rest == Head(3, |t|) + (t + rest);
  }

  /** Decoding undoes encoding, with any bytes following. */
  lemma {:induction false} EncodeRoundTrip(item: Item, rest: seq<byte>)
    ensures Decode(Encode(item) + rest) == Some((item, rest))
    decreases item, 0
  {
    match item
    case UInt(n) => HeadRoundTrip(0, n, rest);
    case ByteString(b) => StringRoundTrip(b, rest);
    case TextString(t) => StringRoundTrip(t, rest);
    case Array(items) =>
      ItemsRoundTrip(items, rest);
      ArrayAfterHead(items, EncodeItems(items), rest);
    case Map(entries) =>
      EntriesRoundTrip(entries, rest);
      MapAfterHead(entries, EncodeEntries(entries), rest);
    case Bool(v) => HeadRoundTrip(7, if v then 21 else 20, rest);
  }

  lemma ArrayAfterHead(items: Vec<Item>, body: seq<byte>, rest: seq<byte>)
    requires DecodeItems(|items|, body + rest) == Some((items, rest))
    ensures Decode(Head(4, |items|) + body + rest) == Some((Array(items), rest))
  {
    hide Head, DecodeHead;
    HeadRoundTrip(4, |items|, body + rest);
    assert Head(4, |items|) + body + rest == Head(4, |items|) + (body + rest);
  }

  lemma MapAfterHead(entries: Vec<Entry>, body: seq<byte>, rest: seq<byte>)
    requires DecodeEntries(|entries|, body + rest) == Some((entries, rest))
    ensures Decode(Head(5, |entries|) + body + rest) == Some((Map(entries), rest))
  {
    hide Head, DecodeHead;
    HeadRoundTrip(5, |entries|, body + rest);
    assert Head(5, |entries|) + body + rest == Head(5, |entries|) + (body + rest);
  }

  lemma NoItems(rest: seq<byte>)
    ensures EncodeItems([]) == [] && DecodeItems(0, rest) == Some(([], rest))
  {}

  lemma EncodeItemsCons(items: seq<Item>, rest: seq<byte>)
    requires items != []
    ensures EncodeItems(items) + rest == Encode(items[0]) + (EncodeItems(items[1..]) + rest)
  {
    hide Encode;
  }

  lemma DecodeItemsCons(item: Item, items: seq<Item>, s: seq<byte>, tail: seq<byte>, rest: seq<byte>)
    requires Decode(s) == Some((item, tail)) && DecodeItems(|items|, tail) == Some((items, rest))
    ensures DecodeItems(|items| + 1, s) == Some(([item] + items, rest))
  {
    hide Decode;
  }

  lemma {:induction false} ItemsRoundTrip(items: seq<Item>, rest: seq<byte>)
    ensures DecodeItems(|items|, EncodeItems(items) + rest) == Some((items, rest))
    decreases items, 1
  {
    hide Encode, Decode, EncodeItems, DecodeItems;
    if items == [] {
      NoItems(rest);
      assert [] + rest == rest;
    } else {
      var tail := EncodeItems(items[1..]) + rest;
      EncodeItemsCons(items, rest);
      EncodeRoundTrip(items[0], tail);
      ItemsRoundTrip(items[1..], rest);
      DecodeItemsCons(items[0], items[1..], EncodeItems(items) + rest, tail, rest);
      assert items == [items[0]] + items[1..];
    }
  }

  lemma {:induction false} EntriesRoundTrip(entries: seq<Entry>, rest: seq<byte>)
    ensures DecodeEntries(|entries|, EncodeEntries(entries) + rest) == Some((entries, rest))
    decreases entries, 1
  {
    if entries == [] {
      assert EncodeEntries(entries) + rest == rest;
    } else {
      var e := entries[0];
      assert entries == [e] + entries[1..];
      EncodeEntriesCons(e, entries[1..], rest);
      var tail := EncodeEntries(entries[1..]) + rest;
      KeyRoundTrip(e.key, Encode(e.value) + tail);
      EncodeRoundTrip(e.value, tail);
      EntriesRoundTrip(entries[1..], rest);
    }
  }

  /** Every byte string the decoder accepts is the encoding of what it returns. */
  lemma {:induction false} DecodeCanonical(s: seq<byte>)
    requires Decode(s).Some?
    ensures s == Encode(Decode(s).value.0) + Decode(s).value.1
    decreases |s|, 0
  {
    HeadCanonical(s);
    var (major, n, rest) := DecodeHead(s).value;
    BodyCanonical(major, n, rest);
  }

  lemma {:induction false} BodyCanonical(major: Major, n: u64, rest: seq<byte>)
    requires DecodeBody(major, n, rest).Some?
    ensures var (item, after) := DecodeBody(major, n, rest).value;
      Head(major, n) + rest == Encode(item) + after
    decreases |rest|, 2
  {
    hide Head, DecodeItems, DecodeEntries, EncodeItems, EncodeEntries;
    if major == 4 {
      ItemsCanonical(n, rest);
    } else if major == 5 {
      EntriesCanonical(n, rest);
    } else if major == 7 {
      BoolHead(n == 21);
    }
  }

  lemma BoolHead(v: bool)
    ensures Head(7, if v then 21 else 20) == EncodeBool(v)
  {}

  lemma {:induction false} ItemsCanonical(n: nat, s: seq<byte>)
    requires DecodeItems(n, s).Some?
    ensures s == EncodeItems(DecodeItems(n, s).value.0) + DecodeItems(n, s).value.1
    decreases |s|, 1
  {
    if n > 0 {
      DecodeCanonical(s);
      ItemsCanonical(n - 1, Decode(s).value.1);
      assert DecodeItems(n, s).value.0[1..] == DecodeItems(n - 1, Decode(s).value.1).value.0;
    }
  }

  lemma {:induction false} EntriesCanonical(n: nat, s: seq<byte>)
    requires DecodeEntries(n, s).Some?
    ensures s == EncodeEntries(DecodeEntries(n, s).value.0) + DecodeEntries(n, s).value.1
    decreases |s|, 1
  {
    hide Head, EncodeText, DecodeHead, DecodeKey, Decode, DecodeBody, Encode;
    if n > 0 {
      KeyCanonical(s);
      var (key, afterKey) := DecodeKey(s).value;
      DecodeCanonical(afterKey);
      var (value, afterValue) := Decode(afterKey).value;
      EntriesCanonical(n - 1, afterValue);
      EncodeEntriesCons(Entry(key, value), DecodeEntries(n - 1, afterValue).value.0, DecodeEntries(n, s).value.1);
    }
  }

  lemma EncodeEntriesCons(e: Entry, entries: seq<Entry>, rest: seq<byte>)
    ensures EncodeEntries([e] + entries) + rest
         == EncodeText(e.key) + (Encode(e.value) + (EncodeEntries(entries) + rest))
  {}

  /** Encodings form a prefix-free code: no item's bytes begin another's. */
  lemma EncodePrefixFree(x: Item, y: Item, r: seq<byte>, s: seq<byte>)
    requires Encode(x) + r == Encode(y) + s
    ensures x == y && r == s
  {
    EncodeRoundTrip(x, r);
    EncodeRoundTrip(y, s);
  }

  // ----- Sorted maps -----

  function EntryKey(e: Entry): Text { e.key }

  function RawEntryOf(e: Entry): RawEntry { (e.key, Encode(e.value)) }

  /** The map `encode_map_sorted` writes for these entries. */
  function SortedMap(entries: Vec<Entry>): Item {
    Map(StableSort(entries, EntryKey, LengthFirst))
  }

  lemma {:induction false} EncodeEntriesConcat(entries: seq<Entry>)
    ensures EncodeEntries(entries) == Concat(Mapped(Mapped(entries, RawEntryOf), RawEntryBytes))
  {
    if entries != [] {
      EncodeEntriesConcat(entries[1..]);
      assert Mapped(Mapped(entries, RawEntryOf), RawEntryBytes)[1..]
          == Mapped(Mapped(entries[1..], RawEntryOf), RawEntryBytes);
    }
  }

  lemma {:induction false} EncodeItemsConcat(items: seq<Item>)
    ensures EncodeItems(items) == Concat(Mapped(items, Encode))
  {
    if items != [] {
      EncodeItemsConcat(items[1..]);
      assert Mapped(items, Encode)[1..] == Mapped(items[1..], Encode);
    }
  }

  /** `encode_array` on the encoded items encodes the array. */
  lemma EncodeArrayItem(items: Vec<Item>)
    ensures Encode(Array(items)) == ArrayBytes(Mapped(items, Encode))
  {
    EncodeItemsConcat(items);
  }

  /** Encoding the sorted map is sorting the encoded entries. */
  lemma EncodeSortedMap(entries: Vec<Entry>)
    ensures Encode(SortedMap(entries))
         == MapBytes(StableSort(Mapped(entries, RawEntryOf), RawKey, LengthFirst))
  {
    StableSortMapped(entries, Mapped(entries, RawEntryOf), RawEntryOf, EntryKey, RawKey, LengthFirst);
    EncodeEntriesConcat(StableSort(entries, EntryKey, LengthFirst));
  }

  /**
   With distinct keys, the map bytes do not depend on the order of the entries,
   and the encoded keys strictly ascend bytewise.
   */
  lemma SortedMapCanonical(a: Vec<RawEntry>, b: Vec<RawEntry>)
    requires DistinctKeys(a, RawKey) && multiset(a) == multiset(b)
    ensures MapBytes(StableSort(a, RawKey, LengthFirst)) == MapBytes(StableSort(b, RawKey, LengthFirst))
    ensures var s := StableSort(a, RawKey, LengthFirst);
      forall i, j :: 0 <= i < j < |s| ==> BytesLess(EncodeText(s[i].0), EncodeText(s[j].0))
  {
    LengthFirstIsTotal();
    PermutationSortsAlike(a, b, RawKey, LengthFirst);
    StableSortAscends(a, RawKey, LengthFirst);
    var s := StableSort(a, RawKey, LengthFirst);
    forall i, j | 0 <= i < j < |s|
      ensures BytesLess(EncodeText(s[i].0), EncodeText(s[j].0))
    {
      assert LengthFirst(RawKey(s[i]), RawKey(s[j]));
      KeyOrdersAgree(s[i].0, s[j].0);
    }
  }
}
