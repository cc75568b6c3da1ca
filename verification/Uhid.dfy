/**
 UHID events (`passless-uhid`): filling the fixed-size event buffers sent to the
 kernel, and parsing the ones it sends. The layouts are the packed structures of
 linux/uhid.h, given here by their fields' widths.
 */
module Uhid {
  import opened Bytes
  import opened Wrappers

  const UHID_OUTPUT := 6
  const UHID_GET_REPORT_REPLY := 10
  const UHID_CREATE2 := 11
  const UHID_INPUT2 := 12
  const UHID_SET_REPORT := 13
  const BUS_USB := 3
  const HID_MAX_DESCRIPTOR_SIZE := 4096
  const UHID_DATA_MAX := 4096
  const UHID_EVENT_SIZE := 4376
  const UHID_NAME_MAX := 128
  const UHID_PHYS_MAX := 64
  const UHID_UNIQ_MAX := 64

  // ----- Native byte order -----

  datatype Endian = Little | Big

  function Reverse(s: seq<byte>): (r: seq<byte>)
    ensures |r| == |s| && forall i :: 0 <= i < |s| ==> r[i] == s[|s| - 1 - i]
  {
    seq(|s|, i requires 0 <= i < |s| => s[|s| - 1 - i])
  }

  /** `to_ne_bytes` at width `w`. */
  function ToNative(e: Endian, w: nat, n: nat): (s: seq<byte>)
    ensures |s| == w
  {
    if e.Big? then BigEndian(w, n) else Reverse(BigEndian(w, n))
  }

  /** `from_ne_bytes`. */
  function FromNative(e: Endian, s: seq<byte>): (n: nat)
    ensures n < Pow256(|s|)
  {
    FromBigEndian(if e.Big? then s else Reverse(s))
  }

  lemma NativeRoundTrip(e: Endian, w: nat, n: nat)
    requires n < Pow256(w)
    ensures FromNative(e, ToNative(e, w, n)) == n
  {
    BigEndianRoundTrip(w, n);
    assert Reverse(Reverse(BigEndian(w, n))) == BigEndian(w, n);
  }

  // ----- Packed structures -----

  function Zeros(n: nat): (s: seq<byte>)
    ensures |s| == n && forall i :: 0 <= i < n ==> s[i] == 0
  {
    seq(n, _ => 0)
  }

  function Pad(t: seq<byte>, width: nat): (s: seq<byte>)
    requires |t| <= width
    ensures |s| == width && t <= s
  {
    t + Zeros(width - |t|)
  }

  function UntilNul(s: seq<byte>): (t: seq<byte>)
    ensures t <= s && 0 !in t
    ensures |t| < |s| ==> s[|t|] == 0
  {
    if s == [] || s[0] == 0 then [] else [s[0]] + UntilNul(s[1..])
  }

  lemma UntilNulOfZeros(width: nat)
    ensures UntilNul(Pad([], width)) == []
  {}

  lemma UntilNulUnfolds(s: seq<byte>)
    requires s != [] && s[0] != 0
    ensures UntilNul(s) == [s[0]] + UntilNul(s[1..])
  {}

  lemma PadTail(t: seq<byte>, width: nat)
    requires t != [] && |t| <= width
    ensures Pad(t, width)[0] == t[0] && Pad(t, width)[1..] == Pad(t[1..], width - 1)
  {}

  /** Padding can be removed exactly from fields without a NUL. */
  lemma {:induction false} PaddingRemovable(t: seq<byte>, width: nat)
    requires |t| <= width
    ensures UntilNul(Pad(t, width)) == t <==> 0 !in t
  {
    hide UntilNul, Pad;
    if t == [] {
      UntilNulOfZeros(width);
    } else if 0 !in t {
      PadTail(t, width);
      UntilNulUnfolds(Pad(t, width));
      PaddingRemovable(t[1..], width - 1);
      assert t == [t[0]] + t[1..];
    }
  }

  function Total(widths: seq<nat>): nat {
    if widths == [] then 0 else Total(widths[..|widths| - 1]) + widths[|widths| - 1]
  }

  function Packed(fields: seq<seq<byte>>): seq<byte> {
    if fields == [] then [] else Packed(fields[..|fields| - 1]) + fields[|fields| - 1]
  }

  function Widths(fields: seq<seq<byte>>): (w: seq<nat>)
    ensures |w| == |fields|
  {
    seq(|fields|, i requires 0 <= i < |fields| => |fields[i]|)
  }

  /** The fields of a packed structure with the given widths. */
  function Fields(buf: seq<byte>, widths: seq<nat>): (fields: seq<seq<byte>>)
    requires |buf| == Total(widths)
    ensures |fields| == |widths| && forall i :: 0 <= i < |widths| ==> |fields[i]| == widths[i]
    decreases |widths|
  {
    if widths == [] then []
    else
      var cut := |buf| - widths[|widths| - 1];
      Fields(buf[..cut], widths[..|widths| - 1]) + [buf[cut..]]
  }

  lemma FieldsSnoc(buf: seq<byte>, widths: seq<nat>, last: seq<byte>)
    requires |buf| == Total(widths)
    ensures Total(widths + [|last|]) == |buf + last|
    ensures Fields(buf + last, widths + [|last|]) == Fields(buf, widths) + [last]
  {}

  lemma LastWidth(fields: seq<seq<byte>>)
    requires fields != []
    ensures Widths(fields) == Widths(fields[..|fields| - 1]) + [|fields[|fields| - 1]|]
  {}

  lemma {:induction false} FieldsOfPacked(fields: seq<seq<byte>>)
    ensures |Packed(fields)| == Total(Widths(fields))
    ensures Fields(Packed(fields), Widths(fields)) == fields
  {
    if fields != [] {
      hide Fields, Total;
      var init, last := fields[..|fields| - 1], fields[|fields| - 1];
      FieldsOfPacked(init);
      FieldsSnoc(Packed(init), Widths(init), last);
      LastWidth(fields);
      hide Widths;
    }
  }

  // ----- Filling a buffer -----

  /** `copy_from_slice` into `buf[at..]`. */
  method CopyFromSlice(buf: array<byte>, at: nat, data: seq<byte>)
    requires at + |data| <= buf.Length
    modifies buf
    ensures buf[..] == old(buf[..at]) + data + old(buf[at + |data|..])
  {
    for i := 0 to |data|
      invariant buf[..at] == old(buf[..at])
      invariant buf[at..at + i] == data[..i]
      invariant buf[at + i..] == old(buf[at + i..])
    {
      buf[at + i] := data[i];
      assert buf[at..at + i + 1] == buf[at..at + i] + [data[i]];
      assert buf[at + i + 1..] == buf[at + i..][1..];
    }
    assert buf[..] == buf[..at] + buf[at..at + |data|] + buf[at + |data|..];
  }

  /** A buffer that holds the fields so far and is zero after them. */
  ghost predicate Holds(buf: seq<byte>, fields: seq<seq<byte>>) {
    |Packed(fields)| <= |buf| && buf == Packed(fields) + Zeros(|buf| - |Packed(fields)|)
  }

  /** Writing `data` where the fields end adds it as a field of any width it fits. */
  lemma NextField(before: seq<byte>, fields: seq<seq<byte>>, data: seq<byte>, width: nat, after: seq<byte>)
    requires Holds(before, fields) && |data| <= width && |Packed(fields)| + width <= |before|
    requires after == before[..|Packed(fields)|] + data + before[|Packed(fields)| + |data|..]
    ensures Holds(after, fields + [Pad(data, width)])
    ensures |Packed(fields + [Pad(data, width)])| == |Packed(fields)| + width
  {}

  /** Writes the next field of a structure at offset `at`. */
  method PutField(buf: array<byte>, at: nat, data: seq<byte>, ghost width: nat, ghost fields: seq<seq<byte>>)
    requires Holds(buf[..], fields) && at == |Packed(fields)|
    requires |data| <= width && at + width <= buf.Length
    modifies buf
    ensures Holds(buf[..], fields + [Pad(data, width)])
    ensures |Packed(fields + [Pad(data, width)])| == at + width
  {
    CopyFromSlice(buf, at, data);
    hide Packed, Holds;
    assert old(buf[..])[..at] == old(buf[..at]);
    assert old(buf[..])[at + |data|..] == old(buf[at + |data|..]);
    NextField(old(buf[..]), fields, data, width, buf[..]);
  }

  method NewBuffer() returns (buf: array<byte>)
    ensures fresh(buf) && buf.Length == UHID_EVENT_SIZE && Holds(buf[..], [])
  {
    buf := new byte[UHID_EVENT_SIZE](_ => 0);
  }

  // ----- CREATE2 -----

  datatype Identity = Identity(name: Text, phys: Text, uniq: Text, vendor: u32, product: u32, version: u32)

  datatype UhidError = IdentityNul | IdentityFieldTooLong | DescriptorTooLarge | PacketTooLarge

  function ValidateField(t: Text, max: nat): Result<(), UhidError> {
    if 0 in t then Err(IdentityNul) else if |t| > max then Err(IdentityFieldTooLong) else Ok(())
  }

  function ValidateIdentity(id: Identity): Result<(), UhidError> {
    var name := ValidateField(id.name, UHID_NAME_MAX);
    if name.Err? then name
    else
      var phys := ValidateField(id.phys, UHID_PHYS_MAX);
      if phys.Err? then phys else ValidateField(id.uniq, UHID_UNIQ_MAX)
  }

  /** The packed `uhid_create2_req` after the event type. */
  function Create2Widths(): seq<nat> {
    [4, UHID_NAME_MAX, UHID_PHYS_MAX, UHID_UNIQ_MAX, 2, 2, 4, 4, 4, 4, HID_MAX_DESCRIPTOR_SIZE]
  }

  function Create2Fields(e: Endian, id: Identity, rd: seq<byte>): seq<seq<byte>>
    requires ValidateIdentity(id).Ok? && |rd| <= HID_MAX_DESCRIPTOR_SIZE
  {
    [ ToNative(e, 4, UHID_CREATE2),
      Pad(id.name, UHID_NAME_MAX), Pad(id.phys, UHID_PHYS_MAX), Pad(id.uniq, UHID_UNIQ_MAX),
      ToNative(e, 2, |rd|), ToNative(e, 2, BUS_USB),
      ToNative(e, 4, id.vendor), ToNative(e, 4, id.product), ToNative(e, 4, id.version), ToNative(e, 4, 0),
      Pad(rd, HID_MAX_DESCRIPTOR_SIZE) ]
  }

  datatype Create2 = Create2(event: nat, identity: Identity, bus: nat, country: nat, descriptor: seq<byte>)

  lemma PadExact(t: seq<byte>)
    ensures Pad(t, |t|) == t
  {}

  function Min(a: nat, b: nat): nat { if a <= b then a else b }

  ghost function IdentityFields(e: Endian, id: Identity): seq<seq<byte>>
    requires ValidateIdentity(id).Ok?
  {
    [ Pad(ToNative(e, 4, UHID_CREATE2), 4),
      Pad(id.name, UHID_NAME_MAX), Pad(id.phys, UHID_PHYS_MAX), Pad(id.uniq, UHID_UNIQ_MAX) ]
  }

  ghost function NumberFields(e: Endian, id: Identity, size: nat): seq<seq<byte>> {
    [ Pad(ToNative(e, 2, size), 2), Pad(ToNative(e, 2, BUS_USB), 2),
      Pad(ToNative(e, 4, id.vendor), 4), Pad(ToNative(e, 4, id.product), 4),
      Pad(ToNative(e, 4, id.version), 4), Pad(ToNative(e, 4, 0), 4) ]
  }

  method PutIdentity(buf: array<byte>, e: Endian, id: Identity)
    requires ValidateIdentity(id).Ok? && buf.Length == UHID_EVENT_SIZE && Holds(buf[..], [])
    modifies buf
    ensures Holds(buf[..], IdentityFields(e, id)) && |Packed(IdentityFields(e, id))| == 260
  {
    hide Packed, Holds, Pad, ToNative;
    PackedEmpty();
    var event := ToNative(e, 4, UHID_CREATE2);
    PutField(buf, 0, event, 4, []);
    ghost var f := [Pad(event, 4)];
    assert [] + f == f;
    var name := id.name[..Min(|id.name|, UHID_NAME_MAX)];
    PutField(buf, 4, name, UHID_NAME_MAX, f);
    f := f + [Pad(name, UHID_NAME_MAX)];
    var phys := id.phys[..Min(|id.phys|, UHID_PHYS_MAX)];
    PutField(buf, 4 + 128, phys, UHID_PHYS_MAX, f);
    f := f + [Pad(phys, UHID_PHYS_MAX)];
    var uniq := id.uniq[..Min(|id.uniq|, UHID_UNIQ_MAX)];
    PutField(buf, 4 + 192, uniq, UHID_UNIQ_MAX, f);
    f := f + [Pad(uniq, UHID_UNIQ_MAX)];
    assert name == id.name && phys == id.phys && uniq == id.uniq;
    assert f == IdentityFields(e, id);
  }

  method PutNumbers(buf: array<byte>, e: Endian, id: Identity, size: nat, ghost before: seq<seq<byte>>)
    requires buf.Length == UHID_EVENT_SIZE && Holds(buf[..], before) && |Packed(before)| == 260
    modifies buf
    ensures Holds(buf[..], before + NumberFields(e, id, size))
    ensures |Packed(before + NumberFields(e, id, size))| == 280
  {
    hide Packed, Holds, Pad, ToNative;
    ghost var f := before;
    PutField(buf, 4 + 256, ToNative(e, 2, size), 2, f);
    f := f + [Pad(ToNative(e, 2, size), 2)];
    PutField(buf, 4 + 258, ToNative(e, 2, BUS_USB), 2, f);
    f := f + [Pad(ToNative(e, 2, BUS_USB), 2)];
    PutField(buf, 4 + 260, ToNative(e, 4, id.vendor), 4, f);
    f := f + [Pad(ToNative(e, 4, id.vendor), 4)];
    PutField(buf, 4 + 264, ToNative(e, 4, id.product), 4, f);
    f := f + [Pad(ToNative(e, 4, id.product), 4)];
    PutField(buf, 4 + 268, ToNative(e, 4, id.version), 4, f);
    f := f + [Pad(ToNative(e, 4, id.version), 4)];
    PutField(buf, 4 + 272, ToNative(e, 4, 0), 4, f);
    f := f + [Pad(ToNative(e, 4, 0), 4)];
    assert f == before + NumberFields(e, id, size);
  }

  /** `send_create2`: the event written to the kernel, or the error. */
  method SendCreate2(e: Endian, id: Identity, rd: seq<byte>) returns (r: Result<seq<byte>, UhidError>)
    ensures ValidateIdentity(id).Err? ==> r == Err(ValidateIdentity(id).error)
    ensures ValidateIdentity(id).Ok? && |rd| > HID_MAX_DESCRIPTOR_SIZE ==> r == Err(DescriptorTooLarge)
    ensures ValidateIdentity(id).Ok? && |rd| <= HID_MAX_DESCRIPTOR_SIZE ==> r == Ok(Packed(Create2Fields(e, id, rd)))
  {
    hide Packed, Holds, ValidateField, IdentityFields, NumberFields, Create2Fields;
    var valid := ValidateIdentity(id);
    if valid.Err? {
      return Err(valid.error);
    }
    if |rd| > HID_MAX_DESCRIPTOR_SIZE {
      return Err(DescriptorTooLarge);
    }
    var buf := NewBuffer();
    PutIdentity(buf, e, id);
    PutNumbers(buf, e, id, |rd|, IdentityFields(e, id));
    ghost var f := IdentityFields(e, id) + NumberFields(e, id, |rd|);
    PutField(buf, 4 + 276, rd, HID_MAX_DESCRIPTOR_SIZE, f);
    Create2FieldsPadded(e, id, rd);
    HoldsAll(buf[..], Create2Fields(e, id, rd));
    return Ok(buf[..]);
  }

  lemma PackedEmpty()
    ensures Packed([]) == []
  {}

  lemma HoldsAll(buf: seq<byte>, fields: seq<seq<byte>>)
    requires Holds(buf, fields) && |Packed(fields)| == |buf|
    ensures buf == Packed(fields)
  {}

  lemma Create2FieldsPadded(e: Endian, id: Identity, rd: seq<byte>)
    requires ValidateIdentity(id).Ok? && |rd| <= HID_MAX_DESCRIPTOR_SIZE
    ensures Create2Fields(e, id, rd) ==
      IdentityFields(e, id) + NumberFields(e, id, |rd|) + [Pad(rd, HID_MAX_DESCRIPTOR_SIZE)]
  {
    hide Pad, ToNative;
    PadExact(ToNative(e, 4, UHID_CREATE2));
    PadExact(ToNative(e, 2, |rd|));
    PadExact(ToNative(e, 2, BUS_USB));
    PadExact(ToNative(e, 4, id.vendor));
    PadExact(ToNative(e, 4, id.product));
    PadExact(ToNative(e, 4, id.version));
    PadExact(ToNative(e, 4, 0));
  }

  /**
   A CREATE2 event read by its fields' widths. A text field ends at its first NUL, or
   with the field.
   */
  function DecodeCreate2(e: Endian, buf: seq<byte>): Create2
    requires |buf| == Total(Create2Widths())
  {
    var f := Fields(buf, Create2Widths());
    assert |f[10]| == HID_MAX_DESCRIPTOR_SIZE && |f[6]| == |f[7]| == |f[8]| == 4;
    Pow256Values();
    Create2(
      FromNative(e, f[0]),
      Identity(
        UntilNul(f[1]), UntilNul(f[2]), UntilNul(f[3]),
        FromNative(e, f[6]), FromNative(e, f[7]), FromNative(e, f[8])),
      FromNative(e, f[5]),
      FromNative(e, f[9]),
      f[10][..Min(FromNative(e, f[4]), HID_MAX_DESCRIPTOR_SIZE)])
  }

  lemma TotalStep(widths: seq<nat>, i: nat)
    requires i < |widths|
    ensures Total(widths[..i + 1]) == Total(widths[..i]) + widths[i]
  {
    assert widths[..i + 1][..i] == widths[..i];
  }

  /** A CREATE2 request after its type fills `struct uhid_event` exactly. */
  lemma Create2Size()
    ensures Total(Create2Widths()) == UHID_EVENT_SIZE
  {
    var w := Create2Widths();
    assert Total(w[..0]) == 0;
    hide Total;
    TotalStep(w, 0); TotalStep(w, 1); TotalStep(w, 2); TotalStep(w, 3);
    TotalStep(w, 4); TotalStep(w, 5); TotalStep(w, 6); TotalStep(w, 7);
    TotalStep(w, 8); TotalStep(w, 9); TotalStep(w, 10);
    assert w[..11] == w;
  }

  /** Every validated identity and descriptor comes back from the event sent for it. */
  lemma Create2RoundTrip(e: Endian, id: Identity, rd: seq<byte>)
    requires ValidateIdentity(id).Ok? && |rd| <= HID_MAX_DESCRIPTOR_SIZE
    ensures |Packed(Create2Fields(e, id, rd))| == Total(Create2Widths()) == UHID_EVENT_SIZE
    ensures DecodeCreate2(e, Packed(Create2Fields(e, id, rd))) == Create2(11, id, 3, 0, rd)
  {
    hide Packed, Fields, Total, Pad, ToNative, FromNative, UntilNul;
    Create2Size();
    var fields := Create2Fields(e, id, rd);
    assert Widths(fields) == Create2Widths();
    FieldsOfPacked(fields);
    Pow256Values();
    NativeRoundTrip(e, 4, UHID_CREATE2);
    NativeRoundTrip(e, 2, |rd|);
    NativeRoundTrip(e, 2, BUS_USB);
    NativeRoundTrip(e, 4, id.vendor);
    NativeRoundTrip(e, 4, id.product);
    NativeRoundTrip(e, 4, id.version);
    NativeRoundTrip(e, 4, 0);
    PaddingRemovable(id.name, UHID_NAME_MAX);
    PaddingRemovable(id.phys, UHID_PHYS_MAX);
    PaddingRemovable(id.uniq, UHID_UNIQ_MAX);
    assert Pad(rd, HID_MAX_DESCRIPTOR_SIZE)[..|rd|] == rd;
  }

  // ----- Packets and replies -----

  method PutCounted(buf: array<byte>, e: Endian, at: nat, data: seq<byte>, ghost before: seq<seq<byte>>)
    requires buf.Length == UHID_EVENT_SIZE && Holds(buf[..], before) && |Packed(before)| == at <= 256
    requires |data| <= UHID_DATA_MAX
    modifies buf
    ensures Holds(buf[..], before + [ToNative(e, 2, |data|), Pad(data, UHID_DATA_MAX)])
    ensures |Packed(before + [ToNative(e, 2, |data|), Pad(data, UHID_DATA_MAX)])| == at + 2 + UHID_DATA_MAX
  {
    hide Packed, Holds, Pad, ToNative;
    PadExact(ToNative(e, 2, |data|));
    PutField(buf, at, ToNative(e, 2, |data|), 2, before);
    ghost var f := before + [ToNative(e, 2, |data|)];
    PutField(buf, at + 2, data, UHID_DATA_MAX, f);
    assert f + [Pad(data, UHID_DATA_MAX)] == before + [ToNative(e, 2, |data|), Pad(data, UHID_DATA_MAX)];
  }

  ghost function Input2Fields(e: Endian, data: seq<byte>): seq<seq<byte>>
    requires |data| <= UHID_DATA_MAX
  {
    [ToNative(e, 4, UHID_INPUT2), ToNative(e, 2, |data|), Pad(data, UHID_DATA_MAX)]
  }

  /** `write_packet`: the event written, or the error. */
  method WritePacket(e: Endian, data: seq<byte>) returns (r: Result<seq<byte>, UhidError>)
    ensures |data| > UHID_DATA_MAX ==> r == Err(PacketTooLarge)
    ensures |data| <= UHID_DATA_MAX ==> r.Ok? && |r.value| == UHID_EVENT_SIZE && Holds(r.value, Input2Fields(e, data))
  {
    hide Packed, Holds, Pad, ToNative;
    if |data| > UHID_DATA_MAX {
      return Err(PacketTooLarge);
    }
    var buf := NewBuffer();
    PackedEmpty();
    var event := ToNative(e, 4, UHID_INPUT2);
    PadExact(event);
    PutField(buf, 0, event, 4, []);
    assert [] + [event] == [event];
    PutCounted(buf, e, 4, data, [event]);
    assert [event] + [ToNative(e, 2, |data|), Pad(data, UHID_DATA_MAX)] == Input2Fields(e, data);
    return Ok(buf[..]);
  }

  ghost function ReplyFields(e: Endian, id: u32, err: u16, data: seq<byte>): seq<seq<byte>>
    requires |data| <= UHID_DATA_MAX
  {
    [ ToNative(e, 4, UHID_GET_REPORT_REPLY), ToNative(e, 4, id), ToNative(e, 2, err),
      ToNative(e, 2, |data|), Pad(data, UHID_DATA_MAX) ]
  }

  /** `send_get_report_reply`: the event written, or the error. */
  method SendGetReportReply(e: Endian, id: u32, err: u16, data: seq<byte>) returns (r: Result<seq<byte>, UhidError>)
    ensures |data| > UHID_DATA_MAX ==> r == Err(PacketTooLarge)
    ensures |data| <= UHID_DATA_MAX ==>
      r.Ok? && |r.value| == UHID_EVENT_SIZE && Holds(r.value, ReplyFields(e, id, err, data))
  {
    hide Packed, Holds, Pad, ToNative;
    if |data| > UHID_DATA_MAX {
      return Err(PacketTooLarge);
    }
    var buf := NewBuffer();
    PackedEmpty();
    var event, idBytes, errBytes := ToNative(e, 4, UHID_GET_REPORT_REPLY), ToNative(e, 4, id), ToNative(e, 2, err);
    PadExact(event);
    PadExact(idBytes);
    PadExact(errBytes);
    PutField(buf, 0, event, 4, []);
    assert [] + [event] == [event];
    PutField(buf, 4, idBytes, 4, [event]);
    PutField(buf, 8, errBytes, 2, [event] + [idBytes]);
    ghost var f := [event] + [idBytes] + [errBytes];
    PutCounted(buf, e, 10, data, f);
    assert f + [ToNative(e, 2, |data|), Pad(data, UHID_DATA_MAX)] == ReplyFields(e, id, err, data);
    return Ok(buf[..]);
  }

  /** A buffer that holds some fields reads as them, with zeros after. */
  lemma HeldFields(buf: seq<byte>, fields: seq<seq<byte>>)
    requires Holds(buf, fields)
    ensures var widths := Widths(fields) + [|buf| - |Packed(fields)|];
      Total(widths) == |buf| && Fields(buf, widths) == fields + [Zeros(|buf| - |Packed(fields)|)]
  {
    var rest := Zeros(|buf| - |Packed(fields)|);
    var all := fields + [rest];
    assert all[..|fields|] == fields;
    assert buf == Packed(all);
    assert Widths(all) == Widths(fields) + [|rest|];
    FieldsOfPacked(all);
  }

  /** The payload of a counted field. */
  function Counted(e: Endian, size: seq<byte>, data: seq<byte>): seq<byte> {
    data[..Min(FromNative(e, size), |data|)]
  }

  lemma CountedRoundTrip(e: Endian, data: seq<byte>)
    requires |data| <= UHID_DATA_MAX
    ensures Counted(e, ToNative(e, 2, |data|), Pad(data, UHID_DATA_MAX)) == data
  {
    hide FromNative, ToNative;
    Pow256Values();
    NativeRoundTrip(e, 2, |data|);
  }

  /** A reader of `uhid_input2_req` gets the event type and the packet back. */
  lemma Input2RoundTrip(e: Endian, data: seq<byte>, buf: seq<byte>)
    requires |data| <= UHID_DATA_MAX && |buf| == UHID_EVENT_SIZE && Holds(buf, Input2Fields(e, data))
    ensures Total([4, 2, UHID_DATA_MAX, 274]) == |buf|
    ensures var f := Fields(buf, [4, 2, UHID_DATA_MAX, 274]);
      FromNative(e, f[0]) == 12 && Counted(e, f[1], f[2]) == data
  {
    hide Packed, Fields, Total, Pad, ToNative, FromNative, Holds, Counted;
    var fields := Input2Fields(e, data);
    HeldFields(buf, fields);
    PackedLength(fields);
    FourWidths(4, 2, UHID_DATA_MAX, 0);
    assert Widths(fields) == [4, 2, UHID_DATA_MAX];
    assert Widths(fields) + [274] == [4, 2, UHID_DATA_MAX, 274];
    Pow256Values();
    NativeRoundTrip(e, 4, UHID_INPUT2);
    CountedRoundTrip(e, data);
  }

  lemma PackedLength(fields: seq<seq<byte>>)
    ensures |Packed(fields)| == Total(Widths(fields))
  {
    FieldsOfPacked(fields);
  }

  lemma FourWidths(a: nat, b: nat, c: nat, d: nat)
    ensures Total([a, b, c]) == a + b + c && Total([a, b, c, d]) == a + b + c + d
  {
    var w := [a, b, c, d];
    assert Total(w[..0]) == 0;
    hide Total;
    TotalStep(w, 0); TotalStep(w, 1); TotalStep(w, 2); TotalStep(w, 3);
    assert w[..3] == [a, b, c] && w[..4] == w;
  }

  /** A reader of `uhid_get_report_reply_req` gets the id, error and data back. */
  lemma ReplyRoundTrip(e: Endian, id: u32, err: u16, data: seq<byte>, buf: seq<byte>)
    requires |data| <= UHID_DATA_MAX && |buf| == UHID_EVENT_SIZE && Holds(buf, ReplyFields(e, id, err, data))
    ensures Total([4, 4, 2, 2, UHID_DATA_MAX, 268]) == |buf|
    ensures var f := Fields(buf, [4, 4, 2, 2, UHID_DATA_MAX, 268]);
      && FromNative(e, f[0]) == 10 && FromNative(e, f[1]) == id && FromNative(e, f[2]) == err
      && Counted(e, f[3], f[4]) == data
  {
    hide Packed, Fields, Total, Pad, ToNative, FromNative, Holds, Counted;
    var fields := ReplyFields(e, id, err, data);
    HeldFields(buf, fields);
    PackedLength(fields);
    var w := Widths(fields);
    assert w == [4, 4, 2, 2, UHID_DATA_MAX];
    FourWidths(4, 4, 2, 2);
    TotalStep(w, 4);
    assert w[..4] == [4, 4, 2, 2] && w[..5] == w;
    assert w + [268] == [4, 4, 2, 2, UHID_DATA_MAX, 268];
    Pow256Values();
    NativeRoundTrip(e, 4, UHID_GET_REPORT_REPLY);
    NativeRoundTrip(e, 4, id);
    NativeRoundTrip(e, 2, err);
    CountedRoundTrip(e, data);
  }

  // ----- Parsing the kernel's events -----

  datatype UhidEvent =
    | Start(devFlags: nat)
    | Stop
    | Open
    | Close
    | Output(data: seq<byte>, rtype: byte)
    | GetReport(id: nat, rnum: byte, rtype: byte)
    | SetReport(id: nat, rnum: byte, rtype: byte, data: seq<byte>)
    | Unknown(event: nat)

  /** The data from `start`, cut to the size field, the field's width and the bytes read. */
  function Payload(buffer: seq<byte>, start: nat, size: nat, n: nat): seq<byte>
    requires n <= |buffer|
  {
    var end := Min(Min(start + size, start + UHID_DATA_MAX), n);
    if end > start then buffer[start..end] else []
  }

  /** `parse_event`. */
  function ParseEvent(e: Endian, event: nat, buffer: seq<byte>, n: nat): UhidEvent
    requires n <= |buffer|
  {
    match event
    case 2 => Start(if n >= 12 then FromNative(e, buffer[4..12]) else 0)
    case 3 => Stop
    case 4 => Open
    case 5 => Close
    case 6 =>
      if n > 4102 then Output(Payload(buffer, 4, FromNative(e, buffer[4100..4102]), n), buffer[4102])
      else Output([], 0)
    case 9 =>
      if n > 9 then GetReport(FromNative(e, buffer[4..8]), buffer[8], buffer[9]) else Unknown(9)
    case 13 =>
      if n > 11 then
        SetReport(
          FromNative(e, buffer[4..8]), buffer[8], buffer[9],
          Payload(buffer, 12, FromNative(e, buffer[10..12]), n))
      else Unknown(13)
    case other => Unknown(other)
  }

  /** `read_event_from_fd` once `n` bytes have been read. */
  function ReadEvent(e: Endian, buffer: seq<byte>, n: nat): Option<UhidEvent>
    requires n <= |buffer|
  {
    if n < 4 then None else Some(ParseEvent(e, FromNative(e, buffer[..4]), buffer, n))
  }

  /** Only the bytes read matter, never what the buffer held before. */
  lemma ParseReadsOnlyWhatWasRead(e: Endian, event: nat, buffer: seq<byte>, n: nat)
    requires n <= |buffer|
    ensures ParseEvent(e, event, buffer, n) == ParseEvent(e, event, buffer[..n], n)
  {
    hide FromNative;
    var read := buffer[..n];
    assert forall i, j :: 0 <= i <= j <= n ==> read[i..j] == buffer[i..j];
  }

  /** Where the three parts of a buffer lie. */
  lemma Parts(head: seq<byte>, size: seq<byte>, body: seq<byte>)
    ensures var b := head + size + body;
      && b[..|head|] == head && b[|head|..|head| + |size|] == size && b[|head| + |size|..] == body
      && forall i :: 0 <= i < |head| ==> b[i] == head[i]
  {}

  lemma OutputParts(event: seq<byte>, data: seq<byte>, size: seq<byte>, rtype: byte, rest: seq<byte>)
    requires |event| == 4 && |size| == 2 && |data| <= UHID_DATA_MAX
    ensures var b := event + Pad(data, UHID_DATA_MAX) + size + ([rtype] + rest);
      b[..4] == event && b[4..4 + |data|] == data && b[4100..4102] == size && b[4102] == rtype
  {
    var field := Pad(data, UHID_DATA_MAX);
    assert field[..|data|] == data;
    hide Pad;
    var b := event + field + size + ([rtype] + rest);
    Parts(event + field, size, [rtype] + rest);
    Parts(event, field, []);
    assert b[..4] == b[..4100][..4];
    assert b[4..4 + |data|] == b[..4100][4..][..|data|];
    assert b[4102] == b[4102..][0];
  }

  lemma OutputRead(e: Endian, b: seq<byte>, n: nat, data: seq<byte>, rtype: byte)
    requires 4103 <= n <= |b| && |data| <= UHID_DATA_MAX
    requires b[..4] == ToNative(e, 4, UHID_OUTPUT) && b[4..4 + |data|] == data
    requires b[4100..4102] == ToNative(e, 2, |data|) && b[4102] == rtype
    ensures ReadEvent(e, b, n) == Some(Output(data, rtype))
  {
    hide FromNative, ToNative;
    Pow256Values();
    NativeRoundTrip(e, 4, UHID_OUTPUT);
    NativeRoundTrip(e, 2, |data|);
  }

  /** An output event as the kernel lays it out, with any bytes after it. */
  lemma OutputEventParsed(e: Endian, data: seq<byte>, rtype: byte, rest: seq<byte>, n: nat)
    requires |data| <= UHID_DATA_MAX && 4103 <= n <= 4103 + |rest|
    ensures var buffer := ToNative(e, 4, 6) + Pad(data, UHID_DATA_MAX) + ToNative(e, 2, |data|) + ([rtype] + rest);
      ReadEvent(e, buffer, n) == Some(Output(data, rtype))
  {
    var event, size := ToNative(e, 4, UHID_OUTPUT), ToNative(e, 2, |data|);
    OutputParts(event, data, size, rtype, rest);
    hide ToNative, Pad, ReadEvent;
    OutputRead(e, event + Pad(data, UHID_DATA_MAX) + size + ([rtype] + rest), n, data, rtype);
  }

  lemma SetReportParts(
    event: seq<byte>, id: seq<byte>, rnum: byte, rtype: byte, size: seq<byte>, data: seq<byte>, rest: seq<byte>, m: nat)
    requires |event| == 4 && |id| == 4 && |size| == 2 && m <= |data| <= UHID_DATA_MAX
    ensures var b := event + id + [rnum, rtype] + size + (Pad(data, UHID_DATA_MAX) + rest);
      && b[..4] == event && b[4..8] == id && b[8] == rnum && b[9] == rtype && b[10..12] == size
      && b[12..12 + m] == data[..m]
  {
    var head, body := event + id + [rnum, rtype], Pad(data, UHID_DATA_MAX) + rest;
    assert body[..m] == data[..m];
    hide Pad;
    var b := head + size + body;
    Parts(head, size, body);
    Parts(event, id, [rnum, rtype]);
    assert b[..4] == b[..10][..4] && b[4..8] == b[..10][4..8];
    assert b[8] == head[8] && b[9] == head[9];
    assert b[12..12 + m] == b[12..][..m];
  }

  /** A set-report event as the kernel lays it out: all the data that was read arrives. */
  lemma SetReportEventParsed(
    e: Endian, id: u32, rnum: byte, rtype: byte, data: seq<byte>, rest: seq<byte>, n: nat)
    requires |data| <= UHID_DATA_MAX && 12 <= n <= 12 + UHID_DATA_MAX + |rest|
    ensures var buffer :=
        ToNative(e, 4, 13) + ToNative(e, 4, id) + [rnum, rtype] +
        ToNative(e, 2, |data|) + (Pad(data, UHID_DATA_MAX) + rest);
      ReadEvent(e, buffer, n) == Some(SetReport(id, rnum, rtype, data[..Min(|data|, n - 12)]))
  {
    var event, idBytes, size := ToNative(e, 4, UHID_SET_REPORT), ToNative(e, 4, id), ToNative(e, 2, |data|);
    SetReportParts(event, idBytes, rnum, rtype, size, data, rest, Min(|data|, n - 12));
    hide ToNative, Pad, ReadEvent;
    SetReportRead(e, event + idBytes + [rnum, rtype] + size + (Pad(data, UHID_DATA_MAX) + rest), n, id, rnum, rtype, data);
  }

  lemma SetReportRead(e: Endian, b: seq<byte>, n: nat, id: u32, rnum: byte, rtype: byte, data: seq<byte>)
    requires 12 <= n <= |b| && |data| <= UHID_DATA_MAX && 12 + |data| <= |b|
    requires b[..4] == ToNative(e, 4, UHID_SET_REPORT) && b[4..8] == ToNative(e, 4, id)
    requires b[8] == rnum && b[9] == rtype && b[10..12] == ToNative(e, 2, |data|)
    requires b[12..12 + Min(|data|, n - 12)] == data[..Min(|data|, n - 12)]
    ensures ReadEvent(e, b, n) == Some(SetReport(id, rnum, rtype, data[..Min(|data|, n - 12)]))
  {
    hide FromNative, ToNative;
    Pow256Values();
    NativeRoundTrip(e, 4, UHID_SET_REPORT);
    NativeRoundTrip(e, 4, id);
    NativeRoundTrip(e, 2, |data|);
  }

  /** Start, stop, open, close and get-report events as the kernel lays them out; shorter reads give the defaults. */
  lemma PlainEventsParsed(e: Endian, flags: u64, rest: seq<byte>, n: nat)
    requires 4 <= n <= 12 + |rest|
    ensures ReadEvent(e, ToNative(e, 4, 2) + ToNative(e, 8, flags) + rest, n) == Some(Start(if n >= 12 then flags else 0))
    ensures ReadEvent(e, ToNative(e, 4, 3) + ToNative(e, 8, flags) + rest, n) == Some(Stop)
    ensures ReadEvent(e, ToNative(e, 4, 4) + ToNative(e, 8, flags) + rest, n) == Some(Open)
    ensures ReadEvent(e, ToNative(e, 4, 5) + ToNative(e, 8, flags) + rest, n) == Some(Close)
  {
    hide FromNative, ToNative;
    Pow256Values();
    NativeRoundTrip(e, 8, flags);
    forall event | 2 <= event <= 5
      ensures var b := ToNative(e, 4, event) + ToNative(e, 8, flags) + rest;
        FromNative(e, b[..4]) == event && b[4..12] == ToNative(e, 8, flags)
    {
      NativeRoundTrip(e, 4, event);
      Parts(ToNative(e, 4, event), ToNative(e, 8, flags), rest);
    }
  }

  lemma GetReportEventParsed(e: Endian, id: u32, rnum: byte, rtype: byte, rest: seq<byte>, n: nat)
    requires 4 <= n <= 10 + |rest|
    ensures ReadEvent(e, ToNative(e, 4, 9) + ToNative(e, 4, id) + ([rnum, rtype] + rest), n) ==
      Some(if n >= 10 then GetReport(id, rnum, rtype) else Unknown(9))
  {
    hide FromNative, ToNative;
    Pow256Values();
    NativeRoundTrip(e, 4, 9);
    NativeRoundTrip(e, 4, id);
    var b := ToNative(e, 4, 9) + ToNative(e, 4, id) + ([rnum, rtype] + rest);
    Parts(ToNative(e, 4, 9), ToNative(e, 4, id), [rnum, rtype] + rest);
    assert b[8] == b[8..][0] && b[9] == b[8..][1];
  }

  /** Any other event type is reported as unknown, with the type. */
  lemma OtherEventsUnknown(e: Endian, event: u32, rest: seq<byte>, n: nat)
    requires 4 <= n <= 4 + |rest| && event !in {2, 3, 4, 5, 6, 9, 13}
    ensures ReadEvent(e, ToNative(e, 4, event) + rest, n) == Some(Unknown(event))
  {
    hide FromNative, ToNative;
    Pow256Values();
    NativeRoundTrip(e, 4, event);
    assert (ToNative(e, 4, event) + rest)[..4] == ToNative(e, 4, event);
  }

  /** Reads too short for their event: no output data, and an unknown set-report. */
  lemma ShortReadsParsed(e: Endian, rest: seq<byte>, n: nat)
    requires 4 <= n <= 4 + |rest|
    ensures n < 4103 ==> ReadEvent(e, ToNative(e, 4, 6) + rest, n) == Some(Output([], 0))
    ensures n < 12 ==> ReadEvent(e, ToNative(e, 4, 13) + rest, n) == Some(Unknown(13))
    ensures forall m :: 0 <= m < 4 ==> ReadEvent(e, ToNative(e, 4, 6) + rest, m) == None
  {
    hide FromNative, ToNative;
    Pow256Values();
    NativeRoundTrip(e, 4, 6);
    NativeRoundTrip(e, 4, 13);
    assert (ToNative(e, 4, 6) + rest)[..4] == ToNative(e, 4, 6);
    assert (ToNative(e, 4, 13) + rest)[..4] == ToNative(e, 4, 13);
  }

  predicate IsPayload(data: seq<byte>, read: seq<byte>, size: nat) {
    data <= read && (|data| == size || |data| == 4096 || |data| == |read|) && |data| <= size && |data| <= 4096
  }

  /** Whatever an event claims, its data is the bytes read, up to the size it gives and at most 4096. */
  lemma EventDataBounded(e: Endian, b: seq<byte>, n: nat)
    requires n <= |b|
    ensures n >= 4103 ==>
      ParseEvent(e, 6, b, n).Output? && IsPayload(ParseEvent(e, 6, b, n).data, b[4..n], FromNative(e, b[4100..4102]))
    ensures n >= 12 ==>
      ParseEvent(e, 13, b, n).SetReport? && IsPayload(ParseEvent(e, 13, b, n).data, b[12..n], FromNative(e, b[10..12]))
  {
    hide FromNative;
  }

  /** An identity is valid exactly if no field holds a NUL or is longer than its field; a NUL is reported first. */
  lemma ValidateIdentityExact(id: Identity)
    ensures ValidateIdentity(id).Ok? <==>
      && 0 !in id.name && |id.name| <= 128 && 0 !in id.phys && |id.phys| <= 64 && 0 !in id.uniq && |id.uniq| <= 64
    ensures 0 in id.name ==> ValidateIdentity(id) == Err(IdentityNul)
    ensures 0 !in id.name && |id.name| > 128 ==> ValidateIdentity(id) == Err(IdentityFieldTooLong)
    ensures 0 !in id.name && |id.name| <= 128 && 0 in id.phys ==> ValidateIdentity(id) == Err(IdentityNul)
    ensures 0 !in id.name && |id.name| <= 128 && 0 !in id.phys && |id.phys| > 64 ==>
      ValidateIdentity(id) == Err(IdentityFieldTooLong)
  {}
}
