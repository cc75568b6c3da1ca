/**
 The timestamp the libusb shim sends (`bcm_cv_host_event_shim.c`): six fields
 packed into 32 bits and sent as two 16-bit words.
 */
module Timestamps {
  import opened Wrappers

  const LIBUSB_ERROR_OTHER := -99

  /** The fields of `struct tm` that are sent, as the 32-bit words they are converted to. */
  datatype Tm = Tm(mday: bv32, mon: bv32, year: bv32, hour: bv32, min: bv32, sec: bv32)

  /** Within the ranges `localtime_r` keeps; `year` counts from 1900. */
  predicate InRange(t: Tm) {
    1 <= t.mday <= 31 && t.mon <= 11 && t.hour <= 23 && t.min <= 59 && t.sec <= 60
  }

  function Since2000(year: bv32): bv32 { if year + 1900 >= 2000 then year + 1900 - 2000 else 0 }

  /** `bcm_cv_pack_timestamp`. */
  function PackTimestamp(t: Tm): bv32 {
    (t.mday & 0x1f) |
    (((t.mon + 1) & 0x0f) << 5) |
    ((Since2000(t.year) & 0x3f) << 9) |
    ((t.hour & 0x1f) << 15) |
    ((t.min & 0x3f) << 20) |
    ((t.sec & 0x3f) << 26)
  }

  /** The two halves sent as `wValue` and `wIndex`. */
  function LowHalf(packed: bv32): bv16 { (packed & 0xffff) as bv16 }

  function HighHalf(packed: bv32): bv16 { (packed >> 16) as bv16 }

  /** A receiver's reading of the two halves. */
  function UnpackTimestamp(low: bv16, high: bv16): Tm {
    var packed := ((high as bv32) << 16) | (low as bv32);
    Tm(
      packed & 0x1f,
      ((packed >> 5) & 0x0f) - 1,
      ((packed >> 9) & 0x3f) + 100,
      (packed >> 15) & 0x1f,
      (packed >> 20) & 0x3f,
      (packed >> 26) & 0x3f)
  }

  lemma HalvesJoin(packed: bv32)
    ensures ((HighHalf(packed) as bv32) << 16) | (LowHalf(packed) as bv32) == packed
  {}

  lemma PackedDate(t: Tm)
    ensures PackTimestamp(t) & 0x1f == t.mday & 0x1f
    ensures (PackTimestamp(t) >> 5) & 0x0f == (t.mon + 1) & 0x0f
    ensures (PackTimestamp(t) >> 9) & 0x3f == Since2000(t.year) & 0x3f
  {}

  lemma PackedTime(t: Tm)
    ensures (PackTimestamp(t) >> 15) & 0x1f == t.hour & 0x1f
    ensures (PackTimestamp(t) >> 20) & 0x3f == t.min & 0x3f
    ensures (PackTimestamp(t) >> 26) & 0x3f == t.sec & 0x3f
  {}

  lemma MasksFit(t: Tm)
    requires InRange(t)
    ensures t.mday & 0x1f == t.mday && ((t.mon + 1) & 0x0f) - 1 == t.mon
    ensures t.hour & 0x1f == t.hour && t.min & 0x3f == t.min && t.sec & 0x3f == t.sec
  {}

  lemma YearFits(year: bv32)
    ensures (Since2000(year) & 0x3f) + 100 == year <==> 100 <= year <= 163
  {}

  /** The timestamp can be read back from the halves exactly for the years 2000 to 2063. */
  lemma TimestampRecoverable(t: Tm)
    requires InRange(t)
    ensures UnpackTimestamp(LowHalf(PackTimestamp(t)), HighHalf(PackTimestamp(t))) == t <==> 100 <= t.year <= 163
  {
    hide PackTimestamp, LowHalf, HighHalf, Since2000, InRange;
    HalvesJoin(PackTimestamp(t));
    PackedDate(t);
    PackedTime(t);
    MasksFit(t);
    YearFits(t.year);
  }

  /** `send_timestamp_sync`: its status, and the two words of the control transfer, if it came to one. */
  method SendTimestampSync(now: Option<Tm>, control: (bv16, bv16) -> int)
    returns (status: int, sent: Option<(bv16, bv16)>)
    ensures now.None? ==> status == LIBUSB_ERROR_OTHER && sent == None
    ensures now.Some? ==> sent.Some? && status == control(sent.value.0, sent.value.1)
    ensures now.Some? && InRange(now.value) && 100 <= now.value.year <= 163 ==>
      UnpackTimestamp(sent.value.0, sent.value.1) == now.value
  {
    if now.None? {
      return LIBUSB_ERROR_OTHER, None;
    }
    hide LowHalf, HighHalf, PackTimestamp, UnpackTimestamp, InRange;
    var packed := PackTimestamp(now.value);
    var low, high := LowHalf(packed), HighHalf(packed);
    if InRange(now.value) {
      TimestampRecoverable(now.value);
    }
    return control(low, high), Some((low, high));
  }
}
