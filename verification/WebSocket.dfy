/**
 The WebSocket framing of `mock-cdp-server.js`: the incremental decoder behind the
 socket's `data` event, and the frame encoder. Frames follow section 5.2 of
 RFC 6455 and masking section 5.3; only text and close frames are handled.
 */
module WebSocket {
  import opened Wrappers
  import opened Bytes

  // ----- Masking -----

  /** Bitwise exclusive or of the low `k` bits. */
  function XorBits(k: nat, a: nat, b: nat): nat {
    if k == 0 then 0 else 2 * XorBits(k - 1, a / 2, b / 2) + (a % 2 + b % 2) % 2
  }

  function Pow2(k: nat): nat { if k == 0 then 1 else 2 * Pow2(k - 1) }

  lemma {:induction false} XorBitsBound(k: nat, a: nat, b: nat)
    ensures XorBits(k, a, b) < Pow2(k)
  {
    if k > 0 {
      XorBitsBound(k - 1, a / 2, b / 2);
    }
  }

  lemma {:induction false} XorBitsInvolution(k: nat, a: nat, b: nat)
    requires a < Pow2(k)
    ensures XorBits(k, XorBits(k, a, b), b) == a
  {
    if k > 0 {
      XorBitsInvolution(k - 1, a / 2, b / 2);
      var half, bit := XorBits(k - 1, a / 2, b / 2), (a % 2 + b % 2) % 2;
      var x := XorBits(k, a, b);
      assert x == 2 * half + bit;
      hide XorBits, Pow2;
      assert x / 2 == half && x % 2 == bit;
      FlipTwice(a % 2, b % 2);
    }
  }

  lemma FlipTwice(p: nat, q: nat)
    requires p < 2 && q < 2
    ensures ((p + q) % 2 + q) % 2 == p
  {}

  lemma Pow2Of8()
    ensures Pow2(8) == 256
  {}

  function Xor(a: byte, b: byte): byte {
    Pow2Of8();
    XorBitsBound(8, a, b);
    XorBits(8, a, b)
  }

  /** Bit `i` of a number. */
  function Bit(n: nat, i: nat): nat { if i == 0 then n % 2 else Bit(n / 2, i - 1) }

  /** Each bit of the result is set exactly when one of the operands has it and the other has not. */
  lemma {:induction false} XorBitsBitwise(k: nat, a: nat, b: nat, i: nat)
    requires i < k
    ensures (Bit(XorBits(k, a, b), i) == 1) <==> (Bit(a, i) != Bit(b, i))
    decreases i
  {
    var half, bit := XorBits(k - 1, a / 2, b / 2), (a % 2 + b % 2) % 2;
    assert XorBits(k, a, b) == 2 * half + bit;
    assert (2 * half + bit) / 2 == half && (2 * half + bit) % 2 == bit;
    if i > 0 {
      XorBitsBitwise(k - 1, a / 2, b / 2, i - 1);
    }
  }

  lemma XorIsBitwise(a: byte, b: byte, i: nat)
    requires i < 8
    ensures (Bit(Xor(a, b), i) == 1) <==> (Bit(a, i) != Bit(b, i))
  {
    XorBitsBitwise(8, a, b, i);
  }

  type Mask = m: seq<byte> | |m| == 4 witness [0, 0, 0, 0]

  function Masked(data: seq<byte>, mask: Mask): (r: seq<byte>)
    ensures |r| == |data| && forall i :: 0 <= i < |data| ==> r[i] == Xor(data[i], mask[i % 4])
  {
    seq(|data|, i requires 0 <= i < |data| => Xor(data[i], mask[i % 4]))
  }

  lemma MaskedTwice(data: seq<byte>, mask: Mask)
    ensures Masked(Masked(data, mask), mask) == data
  {
    forall i | 0 <= i < |data|
      ensures Xor(Xor(data[i], mask[i % 4]), mask[i % 4]) == data[i]
    {
      Pow2Of8();
      XorBitsInvolution(8, data[i], mask[i % 4]);
    }
  }

  /** The unmasking loop of `decodeFrame`. */
  method Unmask(buffer: seq<byte>, offset: nat, length: nat, mask: Mask) returns (payload: array<byte>)
    requires offset + length <= |buffer|
    ensures payload[..] == Masked(buffer[offset..offset + length], mask)
  {
    payload := new byte[length](_ => 0);
    for i := 0 to length
      invariant payload.Length == length
      invariant forall j :: 0 <= j < i ==> payload[j] == Xor(buffer[offset + j], mask[j % 4])
    {
      payload[i] := Xor(buffer[offset + i], mask[i % 4]);
    }
  }

  // ----- Frames -----

  /** A decoded frame; a close frame has no payload. */
  datatype Frame = Frame(totalLength: nat, payload: Option<seq<byte>>)

  /** How many bytes of extended length follow a 7-bit length. */
  function ExtendedWidth(short: nat): (w: nat)
    ensures w <= 8
  {
    if short == 126 then 2 else if short == 127 then 8 else 0
  }

  /** The payload length and where the header up to it ends, if enough bytes are there. */
  function PayloadLength(buffer: seq<byte>): (r: Option<(nat, nat)>)
    requires |buffer| >= 2
    ensures r.Some? ==> 2 <= r.value.1 <= |buffer|
  {
    var short := buffer[1] % 128;
    var w := ExtendedWidth(short);
    if |buffer| < 2 + w then None
    else Some((if w == 0 then short else FromBigEndian(buffer[2..2 + w]), 2 + w))
  }

  function Opcode(buffer: seq<byte>): nat
    requires buffer != []
  {
    buffer[0] % 16
  }

  /** `decodeFrame`: the first frame of the buffer, or nothing while it is incomplete. */
  function DecodeFrame(buffer: seq<byte>): (r: Option<Frame>)
    ensures r.Some? ==> 2 <= r.value.totalLength <= |buffer|
  {
    if |buffer| < 2 then None
    else if Opcode(buffer) == 8 then Some(Frame(2, None))
    else if Opcode(buffer) != 1 then None
    else
      match PayloadLength(buffer)
      case None => None
      case Some((length, offset)) =>
        if buffer[1] >= 128 then
          if |buffer| < offset + 4 + length then None
          else Some(Frame(offset + 4 + length,
                          Some(Masked(buffer[offset + 4..offset + 4 + length], buffer[offset..offset + 4]))))
        else if |buffer| < offset + length then None
        else Some(Frame(offset + length, Some(buffer[offset..offset + length])))
  }

  /** The 7-bit length, or the marker of a longer form. */
  function ShortLength(n: nat): (short: nat)
    ensures short < 128
  {
    if n < 126 then n else if n < 65536 then 126 else 127
  }

  /** The length field of a frame header, with the mask bit in its first byte. */
  function LengthField(n: nat, maskBit: nat): (r: seq<byte>)
    requires n < TWO64 && (maskBit == 0 || maskBit == 128)
    ensures |r| > 0
  {
    [maskBit + ShortLength(n)] + BigEndian(ExtendedWidth(ShortLength(n)), n)
  }

  /** `encodeFrame`: a final, unmasked text frame. */
  function EncodeFrame(payload: Text): seq<byte> {
    [0x81] + LengthField(|payload|, 0) + payload
  }

  /** The masked text frame a client sends. */
  function ClientFrame(payload: Text, mask: Mask): seq<byte> {
    [0x81] + LengthField(|payload|, 128) + mask + Masked(payload, mask)
  }

  lemma LengthFieldBytes(n: nat)
    requires n < TWO64
    ensures n < 126 ==> LengthField(n, 0) == [n]
    ensures 126 <= n < 65536 ==> LengthField(n, 0) == [126] + BigEndian(2, n)
    ensures 65536 <= n ==> LengthField(n, 0) == [127] + BigEndian(8, n)
  {
    assert BigEndian(0, n) == [];
    hide BigEndian;
  }

  /** `encodeFrame` byte by byte, in the three length forms of section 5.2 of RFC 6455. */
  lemma EncodeFrameBytes(payload: Text)
    ensures |payload| < 126 ==> EncodeFrame(payload) == [0x81] + [|payload|] + payload
    ensures 126 <= |payload| < 65536 ==> EncodeFrame(payload) == [0x81] + ([126] + BigEndian(2, |payload|)) + payload
    ensures 65536 <= |payload| ==> EncodeFrame(payload) == [0x81] + ([127] + BigEndian(8, |payload|)) + payload
  {
    hide LengthField, BigEndian;
    LengthFieldBytes(|payload|);
  }

  /** Reading a length field back, whatever follows it. */
  lemma LengthFieldRoundTrip(n: nat, maskBit: nat, first: byte, rest: seq<byte>)
    requires n < TWO64 && (maskBit == 0 || maskBit == 128)
    ensures var b := [first] + LengthField(n, maskBit) + rest;
      var offset := 1 + |LengthField(n, maskBit)|;
      PayloadLength(b) == Some((n, offset)) && (b[1] >= 128 <==> maskBit == 128) && b[0] == first && b[offset..] == rest
  {
    var short := ShortLength(n);
    var w := ExtendedWidth(short);
    if n >= 126 {
      ExtendedFits(n);
      BigEndianRoundTrip(w, n);
    }
    hide BigEndian, FromBigEndian;
    FieldParts(first, maskBit + short, BigEndian(w, n), rest);
  }

  lemma FieldParts(first: byte, second: byte, extended: seq<byte>, rest: seq<byte>)
    ensures var b := [first] + ([second] + extended) + rest;
      b[0] == first && b[1] == second && b[2..2 + |extended|] == extended && b[2 + |extended|..] == rest
  {}

  lemma ExtendedFits(n: nat)
    requires 126 <= n < TWO64
    ensures n < Pow256(ExtendedWidth(ShortLength(n)))
  {}

  /** `decodeFrame` undoes `encodeFrame`, with any bytes following. */
  lemma EncodeFrameRoundTrip(payload: Text, rest: seq<byte>)
    ensures DecodeFrame(EncodeFrame(payload) + rest) == Some(Frame(|EncodeFrame(payload)|, Some(payload)))
  {
    LengthFieldRoundTrip(|payload|, 0, 0x81, payload + rest);
    var b := EncodeFrame(payload) + rest;
    assert b == [0x81] + LengthField(|payload|, 0) + (payload + rest);
    hide LengthField, PayloadLength;
    var offset := 1 + |LengthField(|payload|, 0)|;
    assert b[offset..offset + |payload|] == (payload + rest)[..|payload|] == payload;
  }

  /** `decodeFrame` undoes the masking of section 5.3 of RFC 6455, with any bytes following. */
  lemma ClientFrameRoundTrip(payload: Text, mask: Mask, rest: seq<byte>)
    ensures DecodeFrame(ClientFrame(payload, mask) + rest) == Some(Frame(|ClientFrame(payload, mask)|, Some(payload)))
  {
    var n := |payload|;
    var masked := Masked(payload, mask);
    LengthFieldRoundTrip(n, 128, 0x81, mask + masked + rest);
    var b := ClientFrame(payload, mask) + rest;
    assert b == [0x81] + LengthField(n, 128) + (mask + masked + rest);
    hide LengthField, PayloadLength, Masked;
    var offset := 1 + |LengthField(n, 128)|;
    assert b[offset..offset + 4] == (mask + masked + rest)[..4] == mask;
    assert b[offset + 4..offset + 4 + n] == (mask + masked + rest)[4..4 + n] == masked;
    MaskedTwice(payload, mask);
  }

  // ----- The receive loop -----

  /** Bytes that arrive later do not change a frame already complete. */
  lemma DecodeFrameStable(buffer: seq<byte>, more: seq<byte>)
    requires DecodeFrame(buffer).Some?
    ensures DecodeFrame(buffer + more) == DecodeFrame(buffer)
  {
    var b := buffer + more;
    if Opcode(buffer) != 8 {
      PayloadLengthStable(buffer, more);
      hide PayloadLength, Masked;
      var length, offset := PayloadLength(buffer).value.0, PayloadLength(buffer).value.1;
      if buffer[1] >= 128 {
        assert b[offset..offset + 4] == buffer[offset..offset + 4];
        assert b[offset + 4..offset + 4 + length] == buffer[offset + 4..offset + 4 + length];
      } else {
        assert b[offset..offset + length] == buffer[offset..offset + length];
      }
    }
  }

  lemma PayloadLengthStable(buffer: seq<byte>, more: seq<byte>)
    requires |buffer| >= 2 && PayloadLength(buffer).Some?
    ensures PayloadLength(buffer + more) == PayloadLength(buffer)
  {
    hide FromBigEndian;
    var w := ExtendedWidth(buffer[1] % 128);
    assert (buffer + more)[2..2 + w] == buffer[2..2 + w];
  }

  /** What the loop hands on: empty payloads are falsy and dropped, like close frames. */
  function Delivered(f: Frame): seq<seq<byte>> {
    if f.payload.Some? && f.payload.value != [] then [f.payload.value] else []
  }

  /** The loop of the `data` event: the payloads it hands on and the bytes it keeps. */
  function Drain(buffer: seq<byte>): (r: (seq<seq<byte>>, seq<byte>))
    ensures |r.1| <= |buffer|
    decreases |buffer|
  {
    match DecodeFrame(buffer)
    case None => ([], buffer)
    case Some(frame) =>
      var (payloads, left) := Drain(buffer[frame.totalLength..]);
      (Delivered(frame) + payloads, left)
  }

  lemma DrainUnfolds(buffer: seq<byte>)
    ensures DecodeFrame(buffer).None? ==> Drain(buffer) == ([], buffer)
    ensures DecodeFrame(buffer).Some? ==>
      var frame := DecodeFrame(buffer).value;
      var rest := buffer[frame.totalLength..];
      Drain(buffer) == (Delivered(frame) + Drain(rest).0, Drain(rest).1)
  {}

  /** Draining early and continuing with later bytes is draining all of them at once. */
  lemma {:induction false} DrainSplits(buffer: seq<byte>, more: seq<byte>)
    ensures Drain(buffer + more).0 == Drain(buffer).0 + Drain(Drain(buffer).1 + more).0
    ensures Drain(buffer + more).1 == Drain(Drain(buffer).1 + more).1
    decreases |buffer|
  {
    hide DecodeFrame, Drain;
    DrainUnfolds(buffer);
    if DecodeFrame(buffer).Some? {
      DecodeFrameStable(buffer, more);
      DrainUnfolds(buffer + more);
      var n := DecodeFrame(buffer).value.totalLength;
      assert (buffer + more)[n..] == buffer[n..] + more;
      DrainSplits(buffer[n..], more);
    }
  }

  class Connection {
    var buffer: seq<byte>
    var delivered: seq<seq<byte>>

    constructor ()
      ensures buffer == [] && delivered == []
    {
      buffer, delivered := [], [];
    }

    /** The `data` event. */
    method OnData(data: seq<byte>)
      modifies this
      ensures delivered == old(delivered) + Drain(old(buffer) + data).0
      ensures buffer == Drain(old(buffer) + data).1
    {
      hide DecodeFrame, Drain;
      buffer := buffer + data;
      while |buffer| >= 2
        invariant delivered + Drain(buffer).0 == old(delivered) + Drain(old(buffer) + data).0
        invariant Drain(buffer).1 == Drain(old(buffer) + data).1
        decreases |buffer|
      {
        DrainUnfolds(buffer);
        var frame := DecodeFrame(buffer);
        if frame.None? {
          break;
        }
        buffer := buffer[frame.value.totalLength..];
        if frame.value.payload.Some? && frame.value.payload.value != [] {
          delivered := delivered + [frame.value.payload.value];
        }
      }
      DecodeFrameNeedsTwo(buffer);
      DrainUnfolds(buffer);
    }
  }

  lemma DecodeFrameNeedsTwo(buffer: seq<byte>)
    ensures |buffer| < 2 ==> DecodeFrame(buffer).None?
  {}

  function Join(chunks: seq<seq<byte>>): seq<byte> {
    if chunks == [] then [] else Join(chunks[..|chunks| - 1]) + chunks[|chunks| - 1]
  }

  /** The state after a sequence of `data` events on a fresh connection. */
  function Received(chunks: seq<seq<byte>>): (seq<seq<byte>>, seq<byte>) {
    if chunks == [] then ([], [])
    else
      var (payloads, buffer) := Received(chunks[..|chunks| - 1]);
      var (new', left) := Drain(buffer + chunks[|chunks| - 1]);
      (payloads + new', left)
  }

  /** However a byte stream is cut into events, the result is that of one whole delivery. */
  lemma {:induction false} ChunkIndependence(chunks: seq<seq<byte>>)
    ensures Received(chunks) == Drain(Join(chunks))
  {
    if chunks != [] {
      var before, last := chunks[..|chunks| - 1], chunks[|chunks| - 1];
      ChunkIndependence(before);
      DrainSplits(Join(before), last);
    }
  }

  // ----- Whole streams -----

  /** A frame as section 5.2 of RFC 6455 lays it out: text from either side, or a close frame. */
  datatype WireFrame =
    | FromServer(payload: Text)
    | FromClient(payload: Text, mask: Mask)
    | Close(body: Text, key: Option<Mask>)

  function CloseFrame(body: Text, key: Option<Mask>): seq<byte> {
    match key
    case None => [0x88] + LengthField(|body|, 0) + body
    case Some(mask) => [0x88] + LengthField(|body|, 128) + mask + Masked(body, mask)
  }

  function FrameBytes(f: WireFrame): seq<byte> {
    match f
    case FromServer(payload) => EncodeFrame(payload)
    case FromClient(payload, mask) => ClientFrame(payload, mask)
    case Close(body, key) => CloseFrame(body, key)
  }

  function StreamBytes(frames: seq<WireFrame>): seq<byte> {
    if frames == [] then [] else FrameBytes(frames[0]) + StreamBytes(frames[1..])
  }

  function Message(f: WireFrame): seq<seq<byte>> {
    if !f.Close? && f.payload != [] then [f.payload] else []
  }

  function Messages(frames: seq<WireFrame>): seq<seq<byte>> {
    if frames == [] then [] else Message(frames[0]) + Messages(frames[1..])
  }

  /** The frame is text, or a close frame of two bytes. */
  predicate ReadWhole(f: WireFrame) { f.Close? ==> f.body == [] && f.key.None? }

  lemma CloseFrameLength(body: Text, key: Option<Mask>)
    ensures |CloseFrame(body, key)| >= 2
    ensures |CloseFrame(body, key)| == 2 <==> body == [] && key.None?
    ensures CloseFrame(body, key)[0] == 0x88
  {
    hide Masked;
    assert |body| >= 1 ==> |LengthField(|body|, 0)| + |body| >= 2;
  }

  /** A close frame is taken to end where it does exactly when it has no body and no mask. */
  lemma CloseFrameReadWhole(body: Text, key: Option<Mask>, rest: seq<byte>)
    ensures DecodeFrame(CloseFrame(body, key) + rest) == Some(Frame(2, None))
    ensures DecodeFrame(CloseFrame(body, key) + rest).value.totalLength == |CloseFrame(body, key)| <==>
      body == [] && key.None?
  {
    hide CloseFrame;
    CloseFrameLength(body, key);
    var b := CloseFrame(body, key) + rest;
    assert b[0] == 0x88;
  }

  /** Every frame but a longer close frame decodes to its message and its own length. */
  lemma FrameRoundTrip(f: WireFrame, rest: seq<byte>)
    requires ReadWhole(f)
    ensures var frame := DecodeFrame(FrameBytes(f) + rest);
      frame.Some? && frame.value.totalLength == |FrameBytes(f)| && Delivered(frame.value) == Message(f)
  {
    hide DecodeFrame, EncodeFrame, ClientFrame, CloseFrame;
    match f
    case FromServer(payload) => EncodeFrameRoundTrip(payload, rest);
    case FromClient(payload, mask) => ClientFrameRoundTrip(payload, mask, rest);
    case Close(body, key) => CloseFrameReadWhole(body, key, rest);
  }

  lemma {:induction false} StreamDrains(frames: seq<WireFrame>, tail: seq<byte>)
    requires DecodeFrame(tail).None? && forall i :: 0 <= i < |frames| ==> ReadWhole(frames[i])
    ensures Drain(StreamBytes(frames) + tail) == (Messages(frames), tail)
  {
    hide DecodeFrame, FrameBytes, Drain, Message, Delivered, ReadWhole;
    if frames == [] {
      assert StreamBytes(frames) + tail == tail;
      DrainUnfolds(tail);
    } else {
      var rest := StreamBytes(frames[1..]) + tail;
      var all := StreamBytes(frames) + tail;
      assert all == FrameBytes(frames[0]) + rest;
      FrameRoundTrip(frames[0], rest);
      DrainUnfolds(all);
      assert all[|FrameBytes(frames[0])|..] == rest;
      StreamDrains(frames[1..], tail);
    }
  }

  /**
   Any list of text frames, masked or not, and two-byte close frames, followed by
   the beginning of another frame and cut into events anywhere, yields exactly the
   non-empty payloads in order and leaves exactly the unfinished bytes.
   */
  lemma StreamReceived(frames: seq<WireFrame>, tail: seq<byte>, chunks: seq<seq<byte>>)
    requires DecodeFrame(tail).None? && Join(chunks) == StreamBytes(frames) + tail
    requires forall i :: 0 <= i < |frames| ==> ReadWhole(frames[i])
    ensures Received(chunks) == (Messages(frames), tail)
  {
    ChunkIndependence(chunks);
    StreamDrains(frames, tail);
  }

  // ----- Where the decoder fails -----

  /** A frame at the front that is neither text nor close: the decoder reports it incomplete. */
  predicate Stalled(buffer: seq<byte>) {
    |buffer| >= 2 && Opcode(buffer) != 1 && Opcode(buffer) != 8
  }

  /** Once such a frame is reached, no later data is ever delivered or consumed. */
  lemma {:induction false} StalledForever(buffer: seq<byte>, chunks: seq<seq<byte>>)
    requires Stalled(buffer)
    ensures Drain(buffer + Join(chunks)) == ([], buffer + Join(chunks))
  {}

  /** Any other buffer is completed to a frame by some bytes. */
  lemma CompletedBy(buffer: seq<byte>) returns (more: seq<byte>)
    requires |buffer| >= 2 && !Stalled(buffer)
    ensures DecodeFrame(buffer + more).Some?
  {
    hide Masked, FromBigEndian;
    var header := seq(10, _ => 0);
    var length := PayloadLength(buffer + header).value.0;
    more := header + seq(4 + length, _ => 0);
    PayloadLengthStable(buffer + header, more[10..]);
    assert buffer + more == buffer + header + more[10..];
  }

  /** The decoder never gets past a buffer exactly when its first frame is neither text nor close. */
  lemma StalledExactly(buffer: seq<byte>)
    requires |buffer| >= 2
    ensures Stalled(buffer) <==> forall more :: DecodeFrame(buffer + more).None?
  {
    if !Stalled(buffer) {
      var more := CompletedBy(buffer);
    }
  }

  /** A close frame is consumed as its first two bytes: whatever follows is read as the next frame. */
  lemma CloseFrameIsTwoBytes(first: byte, second: byte, rest: seq<byte>)
    requires first % 16 == 8
    ensures Drain([first, second] + rest) == Drain(rest)
  {
    var b := [first, second] + rest;
    DrainUnfolds(b);
    assert b[2..] == rest;
    assert [] + Drain(rest).0 == Drain(rest).0;
  }

  /** So the masking key of an empty client close frame can be delivered as a message. */
  lemma MaskedCloseMisread()
    ensures Drain([0x88, 0x80] + [0x81, 0x01, 0x41, 0x88]) == ([[0x41]], [0x88])
  {
    var message: Text := [0x41];
    var tail: seq<byte> := [0x88];
    var key := EncodeFrame(message) + tail;
    assert BigEndian(0, 1) == [];
    assert key == [0x81, 0x01, 0x41, 0x88];
    CloseFrameIsTwoBytes(0x88, 0x80, key);
    EncodeFrameRoundTrip(message, tail);
    DecodeFrameNeedsTwo(tail);
    KeyDrains(key, message, tail);
  }

  lemma KeyDrains(key: seq<byte>, message: seq<byte>, tail: seq<byte>)
    requires message != [] && 3 <= |key| && key[3..] == tail
    requires DecodeFrame(key) == Some(Frame(3, Some(message))) && DecodeFrame(tail).None?
    ensures Drain(key) == ([message], tail)
  {
    hide DecodeFrame, Drain;
    DrainUnfolds(key);
    DrainUnfolds(tail);
    assert [message] + [] == [message];
  }
}
