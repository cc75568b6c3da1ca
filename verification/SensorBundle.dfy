/**
 The sensor firmware bundle parser (`cv3_firmware_controller.py`): a catalogue of
 records read with a cursor, and the payload ranges the records point to.
 */
module SensorBundle {
  import opened Bytes
  import opened Texts
  import opened Wrappers

  const HEADER_SIZE := 24
  const MAX_IMAGES := 128

  /** `SensorImage`; the version is kept as its bytes. */
  datatype Image = Image(
    sensorType: u32,
    version: seq<byte>,
    imageOffset: u32,
    imageLength: u32,
    signatureOffset: u32,
    signatureLength: u32)

  datatype Catalogue = Catalogue(images: seq<Image>, end: nat)

  function Magic(): (t: seq<byte>)
    ensures |t| == 16
  {
    Ascii("bcmSensorFirmwar")
  }

  /** `be32`. */
  function Be32(data: seq<byte>, offset: nat): (r: Option<nat>)
    ensures r.Some? <==> offset + 4 <= |data|
    ensures r.Some? ==> r.value < TWO32
  {
    if offset + 4 > |data| then None
    else
      Pow256Values();
      Some(FromBigEndian(data[offset..offset + 4]))
  }

  // ----- What a bundle is -----

  predicate IsAscii(t: seq<byte>) { forall i :: 0 <= i < |t| ==> t[i] < 128 }

  /** A record's checks against a bundle of `size` bytes. */
  predicate RecordOk(im: Image, size: nat) {
    && 1 <= |im.version| <= 255
    && IsAscii(im.version)
    && im.imageOffset + im.imageLength == im.signatureOffset
    && im.signatureOffset + im.signatureLength <= size
  }

  predicate AllOk(images: seq<Image>, size: nat) { forall i :: 0 <= i < |images| ==> RecordOk(images[i], size) }

  /** A record as bytes. */
  function Print(im: Image): (s: seq<byte>)
    ensures |s| == 24 + |im.version|
  {
    BigEndian(4, im.sensorType) + BigEndian(4, |im.version|) + im.version +
    BigEndian(4, im.imageLength) + BigEndian(4, im.signatureLength) +
    BigEndian(4, im.imageOffset) + BigEndian(4, im.signatureOffset)
  }

  function PrintAll(images: seq<Image>): seq<byte> {
    if images == [] then [] else PrintAll(images[..|images| - 1]) + Print(images[|images| - 1])
  }

  function Header(size: nat, count: nat): (s: seq<byte>)
    ensures |s| == HEADER_SIZE
  {
    Ascii("bcmSensorFirmwar") + BigEndian(4, size) + BigEndian(4, count)
  }

  function MinOffset(images: seq<Image>): nat
    requires images != []
  {
    var last := images[|images| - 1].imageOffset;
    if |images| == 1 then last
    else
      var rest := MinOffset(images[..|images| - 1]);
      if last < rest then last else rest
  }

  /** `data` starts with the printed catalogue, whose payloads begin where it ends. */
  ghost predicate IsBundle(data: seq<byte>, c: Catalogue) {
    && |data| < TWO32
    && 1 <= |c.images| <= 128
    && AllOk(c.images, |data|)
    && Header(|data|, |c.images|) + PrintAll(c.images) <= data
    && c.end == HEADER_SIZE + |PrintAll(c.images)| == MinOffset(c.images)
  }

  // ----- The parser -----

  /** The record at `cursor`, if its checks pass. */
  function ParseRecord(data: seq<byte>, cursor: nat): (r: Option<Image>)
    ensures r.Some? ==> RecordOk(r.value, |data|) && cursor + |Print(r.value)| <= |data|
  {
    var sensorType, versionLength := Be32(data, cursor), Be32(data, cursor + 4);
    if sensorType.None? || versionLength.None? then None
    else if !(1 <= versionLength.value <= 255) || cursor + 8 + versionLength.value > |data| then None
    else
      var after := cursor + 8 + versionLength.value;
      var version := data[cursor + 8..after];
      if !IsAscii(version) then None
      else
        var imageLength, signatureLength := Be32(data, after), Be32(data, after + 4);
        var imageOffset, signatureOffset := Be32(data, after + 8), Be32(data, after + 12);
        if signatureOffset.None? then None
        else if imageOffset.value + imageLength.value != signatureOffset.value then None
        else if signatureOffset.value + signatureLength.value > |data| then None
        else
          Some(Image(
            sensorType.value, version, imageOffset.value, imageLength.value,
            signatureOffset.value, signatureLength.value))
  }

  /** The catalogue with one more record. */
  function Grow(c: Catalogue, im: Image): (r: Catalogue)
    ensures |r.images| == |c.images| + 1
  {
    Catalogue(c.images + [im], c.end + |Print(im)|)
  }

  /** The first `n` records and the cursor after them. */
  function ParseRecords(data: seq<byte>, n: nat): (r: Option<Catalogue>)
    ensures r.Some? ==> |r.value.images| == n
  {
    if n == 0 then Some(Catalogue([], HEADER_SIZE))
    else
      match ParseRecords(data, n - 1)
      case None => None
      case Some(c) =>
        match ParseRecord(data, c.end)
        case None => None
        case Some(im) => Some(Grow(c, im))
  }

  function ParseHeader(data: seq<byte>): Option<nat> {
    if |data| < HEADER_SIZE || data[..16] != Magic() then None
    else
      var size, count := Be32(data, 16).value, Be32(data, 20).value;
      if size != |data| || !(1 <= count <= MAX_IMAGES) then None else Some(count)
  }

  function Parse(data: seq<byte>): Option<Catalogue> {
    match ParseHeader(data)
    case None => None
    case Some(count) =>
      var c := ParseRecords(data, count);
      if c.Some? && (c.value.images == [] || c.value.end == MinOffset(c.value.images)) then c else None
  }

  lemma {:induction false} FailureStands(data: seq<byte>, m: nat, n: nat)
    requires m <= n && ParseRecords(data, m).None?
    ensures ParseRecords(data, n).None?
  {
    hide ParseRecord, Grow;
    if m < n {
      FailureStands(data, m, n - 1);
    }
  }

  /** `parse_sensor_bundle`. */
  method ParseSensorBundle(data: seq<byte>) returns (r: Option<Catalogue>)
    ensures r == Parse(data)
  {
    hide ParseRecord, ParseRecords, MinOffset, Magic;
    if |data| < HEADER_SIZE || data[..16] != Magic() {
      return None;
    }
    var size, count := Be32(data, 16).value, Be32(data, 20).value;
    if size != |data| || !(1 <= count <= MAX_IMAGES) {
      return None;
    }
    var cursor: nat := HEADER_SIZE;
    var images: seq<Image> := [];
    NoRecords(data);
    for index := 0 to count
      invariant ParseRecords(data, index) == Some(Catalogue(images, cursor))
      invariant |images| == index
    {
      RecordsUnfold(data, index);
      var im := ReadRecord(data, cursor);
      if im.None? {
        FailureStands(data, index + 1, count);
        return None;
      }
      images := images + [im.value];
      cursor := cursor + |Print(im.value)|;
    }
    var first := LowestOffset(images);
    if cursor != first {
      return None;
    }
    return Some(Catalogue(images, cursor));
  }

  lemma NoRecords(data: seq<byte>)
    ensures ParseRecords(data, 0) == Some(Catalogue([], HEADER_SIZE))
  {}

  lemma RecordsUnfold(data: seq<byte>, n: nat)
    requires ParseRecords(data, n).Some?
    ensures var c := ParseRecords(data, n).value;
      ParseRecords(data, n + 1) ==
      match ParseRecord(data, c.end)
      case None => None
      case Some(im) => Some(Grow(c, im))
  {
    hide ParseRecord, Print;
  }

  /** The body of the parsing loop. */
  method ReadRecord(data: seq<byte>, start: nat) returns (r: Option<Image>)
    ensures r == ParseRecord(data, start)
  {
    hide Print, FromBigEndian;
    var cursor := start;
    var sensorType := Be32(data, cursor);
    var versionLength := Be32(data, cursor + 4);
    if sensorType.None? || versionLength.None? {
      return None;
    }
    cursor := cursor + 8;
    if !(1 <= versionLength.value <= 255) || cursor + versionLength.value > |data| {
      return None;
    }
    var version := data[cursor..cursor + versionLength.value];
    for i := 0 to |version|
      invariant forall j :: 0 <= j < i ==> version[j] < 128
    {
      if version[i] >= 128 {
        assert !IsAscii(version);
        return None;
      }
    }
    cursor := cursor + versionLength.value;
    var imageLength := Be32(data, cursor);
    var signatureLength := Be32(data, cursor + 4);
    var imageOffset := Be32(data, cursor + 8);
    var signatureOffset := Be32(data, cursor + 12);
    if imageLength.None? || signatureLength.None? || imageOffset.None? || signatureOffset.None? {
      return None;
    }
    if imageOffset.value + imageLength.value != signatureOffset.value {
      return None;
    }
    if signatureOffset.value + signatureLength.value > |data| {
      return None;
    }
    return Some(Image(
      sensorType.value, version, imageOffset.value, imageLength.value, signatureOffset.value, signatureLength.value));
  }

  method LowestOffset(images: seq<Image>) returns (lowest: nat)
    requires images != []
    ensures lowest == MinOffset(images)
  {
    assert images[..1][0] == images[0];
    lowest := images[0].imageOffset;
    for i := 1 to |images|
      invariant lowest == MinOffset(images[..i])
    {
      assert images[..i + 1][..i] == images[..i];
      if images[i].imageOffset < lowest {
        lowest := images[i].imageOffset;
      }
    }
    assert images[..|images|] == images;
  }

  // ----- Parsing is the inverse of printing -----

  lemma Be32Exact(data: seq<byte>, offset: nat, n: u32)
    requires offset + 4 <= |data|
    ensures Be32(data, offset) == Some(n) <==> data[offset..offset + 4] == BigEndian(4, n)
  {
    Pow256Values();
    BigEndianRoundTrip(4, n);
    FromBigEndianRoundTrip(data[offset..offset + 4]);
  }

  /** `part` stands in `data` at `at`. */
  ghost predicate Stands(data: seq<byte>, at: nat, part: seq<byte>) {
    at + |part| <= |data| && data[at..at + |part|] == part
  }

  lemma StandsAppend(data: seq<byte>, at: nat, a: seq<byte>, b: seq<byte>)
    ensures Stands(data, at, a + b) <==> Stands(data, at, a) && Stands(data, at + |a|, b)
  {
    if at + |a| + |b| <= |data| {
      var s := data[at..at + |a| + |b|];
      assert s[..|a|] == data[at..at + |a|] && s[|a|..] == data[at + |a|..at + |a| + |b|];
      assert s == s[..|a|] + s[|a|..];
      assert (a + b)[..|a|] == a && (a + b)[|a|..] == b;
    }
  }

  /** Where the fields of a record lie. */
  ghost predicate RecordAt(data: seq<byte>, cursor: nat, im: Image) {
    var after := cursor + 8 + |im.version|;
    && Stands(data, cursor, BigEndian(4, im.sensorType)) && Stands(data, cursor + 4, BigEndian(4, |im.version|))
    && Stands(data, cursor + 8, im.version)
    && Stands(data, after, BigEndian(4, im.imageLength)) && Stands(data, after + 4, BigEndian(4, im.signatureLength))
    && Stands(data, after + 8, BigEndian(4, im.imageOffset)) && Stands(data, after + 12, BigEndian(4, im.signatureOffset))
  }

  lemma RecordAtExact(data: seq<byte>, cursor: nat, im: Image)
    requires cursor + |Print(im)| <= |data|
    ensures RecordAt(data, cursor, im) <==> data[cursor..cursor + |Print(im)|] == Print(im)
  {
    hide BigEndian, Stands;
    var a := BigEndian(4, im.sensorType);
    var b := a + BigEndian(4, |im.version|);
    var c := b + im.version;
    var d := c + BigEndian(4, im.imageLength);
    var e := d + BigEndian(4, im.signatureLength);
    var f := e + BigEndian(4, im.imageOffset);
    StandsAppend(data, cursor, a, BigEndian(4, |im.version|));
    StandsAppend(data, cursor, b, im.version);
    StandsAppend(data, cursor, c, BigEndian(4, im.imageLength));
    StandsAppend(data, cursor, d, BigEndian(4, im.signatureLength));
    StandsAppend(data, cursor, e, BigEndian(4, im.imageOffset));
    StandsAppend(data, cursor, f, BigEndian(4, im.signatureOffset));
    StandsSlice(data, cursor, Print(im));
  }

  lemma StandsSlice(data: seq<byte>, at: nat, part: seq<byte>)
    requires at + |part| <= |data|
    ensures Stands(data, at, part) <==> data[at..at + |part|] == part
  {}

  lemma AppendPrefix(s: seq<byte>, a: seq<byte>, b: seq<byte>)
    ensures a + b <= s <==> a <= s && |a| + |b| <= |s| && s[|a|..|a| + |b|] == b
  {}

  /** A record is read exactly where it is printed and its checks pass. */
  lemma ParseRecordExact(data: seq<byte>, cursor: nat, im: Image)
    ensures ParseRecord(data, cursor) == Some(im) <==>
      && RecordOk(im, |data|) && cursor + |Print(im)| <= |data|
      && data[cursor..cursor + |Print(im)|] == Print(im)
  {
    hide Print, BigEndian, FromBigEndian;
    if cursor + |Print(im)| <= |data| {
      RecordAtExact(data, cursor, im);
      ParsedIsAt(data, cursor, im);
    }
  }

  lemma ParsedIsAt(data: seq<byte>, cursor: nat, im: Image)
    requires cursor + 24 + |im.version| <= |data|
    ensures ParseRecord(data, cursor) == Some(im) <==> RecordOk(im, |data|) && RecordAt(data, cursor, im)
  {
    hide Print, BigEndian, FromBigEndian, IsAscii, Be32;
    var v := |im.version|;
    var after := cursor + 8 + v;
    Be32Exact(data, cursor, im.sensorType);
    if v < TWO32 {
      Be32Exact(data, cursor + 4, v);
    }
    Be32Exact(data, after, im.imageLength);
    Be32Exact(data, after + 4, im.signatureLength);
    Be32Exact(data, after + 8, im.imageOffset);
    Be32Exact(data, after + 12, im.signatureOffset);
  }

  /** `c` is what the catalogue starts with: its records pass, in their printed form. */
  ghost predicate Starts(data: seq<byte>, c: Catalogue)
    requires |data| >= HEADER_SIZE
  {
    && AllOk(c.images, |data|)
    && c.end == HEADER_SIZE + |PrintAll(c.images)| && PrintAll(c.images) <= data[HEADER_SIZE..]
  }

  lemma OneMoreOk(images: seq<Image>, im: Image, size: nat)
    ensures AllOk(images + [im], size) <==> AllOk(images, size) && RecordOk(im, size)
  {
    hide RecordOk;
    var more := images + [im];
    assert more[|images|] == im;
    assert forall i :: 0 <= i < |images| ==> more[i] == images[i];
  }

  lemma OneMorePrinted(images: seq<Image>, im: Image)
    ensures PrintAll(images + [im]) == PrintAll(images) + Print(im)
  {}

  /** Printed bytes, one record on. */
  lemma BytesStep(data: seq<byte>, before: seq<byte>, record: seq<byte>)
    requires |data| >= HEADER_SIZE
    ensures before + record <= data[HEADER_SIZE..] <==>
      && before <= data[HEADER_SIZE..]
      && HEADER_SIZE + |before| + |record| <= |data|
      && data[HEADER_SIZE + |before|..HEADER_SIZE + |before| + |record|] == record
  {}

  lemma StartsStep(data: seq<byte>, c: Catalogue, im: Image)
    requires |data| >= HEADER_SIZE
    ensures Starts(data, Grow(c, im)) <==> Starts(data, c) && ParseRecord(data, c.end) == Some(im)
  {
    hide ParseRecord, RecordOk, Print, PrintAll, AllOk;
    OneMoreOk(c.images, im, |data|);
    OneMorePrinted(c.images, im);
    BytesStep(data, PrintAll(c.images), Print(im));
    ParseRecordExact(data, c.end, im);
  }

  lemma StartsEmpty(data: seq<byte>)
    requires |data| >= HEADER_SIZE
    ensures forall c: Catalogue :: c.images == [] ==> (Starts(data, c) <==> c == Catalogue([], HEADER_SIZE))
  {}

  lemma {:induction false} ParsedStarts(data: seq<byte>, n: nat)
    requires |data| >= HEADER_SIZE && ParseRecords(data, n).Some?
    ensures Starts(data, ParseRecords(data, n).value)
  {
    hide ParseRecords, ParseRecord, Starts, Print, Grow;
    if n == 0 {
      NoRecords(data);
      StartsEmpty(data);
    } else {
      if ParseRecords(data, n - 1).None? {
        FailureStands(data, n - 1, n);
      }
      ParsedStarts(data, n - 1);
      RecordsUnfold(data, n - 1);
      var c := ParseRecords(data, n - 1).value;
      StartsStep(data, c, ParseRecord(data, c.end).value);
    }
  }

  lemma {:induction false} StartsParsed(data: seq<byte>, c: Catalogue)
    requires |data| >= HEADER_SIZE && Starts(data, c)
    ensures ParseRecords(data, |c.images|) == Some(c)
    decreases |c.images|
  {
    hide ParseRecords, ParseRecord, Starts, Print, Grow;
    if c.images == [] {
      NoRecords(data);
      StartsEmpty(data);
    } else {
      var before, last := Shrink(data, c);
      StartsStep(data, before, last);
      StartsParsed(data, before);
      RecordsUnfold(data, |before.images|);
    }
  }

  /** A nonempty catalogue is a smaller one with one more record. */
  lemma Shrink(data: seq<byte>, c: Catalogue) returns (before: Catalogue, last: Image)
    requires |data| >= HEADER_SIZE && Starts(data, c) && c.images != []
    ensures c == Grow(before, last)
  {
    StartsEnd(data, c);
    hide Print, Starts;
    var n := |c.images| - 1;
    last := c.images[n];
    before := Catalogue(c.images[..n], c.end - |Print(last)|);
  }

  /** The records are read exactly when the catalogue starts with their printed form. */
  lemma ParseRecordsExact(data: seq<byte>, c: Catalogue)
    requires |data| >= HEADER_SIZE
    ensures ParseRecords(data, |c.images|) == Some(c) <==> Starts(data, c)
  {
    hide ParseRecords, Starts;
    if ParseRecords(data, |c.images|) == Some(c) {
      ParsedStarts(data, |c.images|);
    } else if Starts(data, c) {
      StartsParsed(data, c);
    }
  }

  lemma StartsEnd(data: seq<byte>, c: Catalogue)
    requires |data| >= HEADER_SIZE && c.images != []
    ensures Starts(data, c) ==> c.end >= |Print(c.images[|c.images| - 1])|
  {}

  lemma ParseHeaderExact(data: seq<byte>, count: nat)
    ensures ParseHeader(data) == Some(count) <==>
      |data| < TWO32 && 1 <= count <= MAX_IMAGES && Header(|data|, count) <= data
  {
    hide Ascii, BigEndian, Be32;
    if |data| >= HEADER_SIZE {
      var a := Magic();
      if |data| < TWO32 {
        var b := a + BigEndian(4, |data|);
        AppendPrefix(data, a, BigEndian(4, |data|));
        Be32Exact(data, 16, |data|);
        if count < TWO32 {
          AppendPrefix(data, b, BigEndian(4, count));
          Be32Exact(data, 20, count);
        }
      }
    }
  }

  /**
   The parser accepts exactly the printed catalogues whose checks pass, and
   returns the records printed: parsing and printing are inverse to each other.
   */
  lemma ParseExact(data: seq<byte>, c: Catalogue)
    ensures Parse(data) == Some(c) <==> IsBundle(data, c)
  {
    hide ParseRecords, ParseHeader, PrintAll, Header, MinOffset, AllOk;
    var count := |c.images|;
    ParseHeaderExact(data, count);
    if |data| >= HEADER_SIZE {
      ParseRecordsExact(data, c);
      HeaderThenRecords(data, count, PrintAll(c.images));
    }
  }

  lemma HeaderThenRecords(data: seq<byte>, count: nat, records: seq<byte>)
    requires |data| >= HEADER_SIZE
    ensures Header(|data|, count) + records <= data <==> Header(|data|, count) <= data && records <= data[HEADER_SIZE..]
  {}

  lemma {:induction false} MinOffsetIsLowest(images: seq<Image>, i: nat)
    requires i < |images|
    ensures MinOffset(images) <= images[i].imageOffset
  {
    if i < |images| - 1 {
      MinOffsetIsLowest(images[..|images| - 1], i);
    }
  }

  /** In an accepted bundle every image and its signature lie between the catalogue's end and the file's. */
  lemma PayloadsInside(data: seq<byte>, c: Catalogue, i: nat)
    requires Parse(data) == Some(c) && i < |c.images|
    ensures var im := c.images[i];
      c.end <= im.imageOffset <= im.signatureOffset <= im.signatureOffset + im.signatureLength <= |data|
  {
    hide Parse;
    ParseExact(data, c);
    MinOffsetIsLowest(c.images, i);
  }

  /** Printing what was parsed gives the catalogue's bytes back. */
  lemma CatalogueReprinted(data: seq<byte>, c: Catalogue)
    requires Parse(data) == Some(c)
    ensures c.end <= |data| && data[..c.end] == Header(|data|, |c.images|) + PrintAll(c.images)
  {
    hide Parse, Header, PrintAll;
    ParseExact(data, c);
  }
}
