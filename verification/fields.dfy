/** Field extraction for the Message 1 position report (Decoder.twos_comp,
    Decoder.bin_array_to_dec and the get_* readers): every field is a fixed bit range of
    the decoded message, read most-significant bit first, signed fields in two's
    complement. */
module Fields {
  import opened Common

  datatype FieldError = EmptyField // `int('', 2)` raises ValueError on an empty slice

  /** Decoder.twos_comp: subtract `2^size` when bit `size − 1` of `val` is set. Its only
      caller passes the value of a `size`-bit slice, on which that bit is set exactly
      when `val >= 2^(size-1)`. */
  function TwosComp(val: nat, size: nat): (r: int)
    requires size >= 1 && val < Pow2(size)
    ensures -(Pow2(size - 1) as int) <= r < Pow2(size - 1)
    ensures r == val || r == val - Pow2(size)
    ensures r < 0 <==> val >= Pow2(size - 1)
  {
    assert Pow2(size) == 2 * Pow2(size - 1);
    if val >= Pow2(size - 1) then val - Pow2(size) else val
  }

  /** The `size`-bit two's complement pattern of a value in the signed range. */
  function SignedPattern(x: int, size: nat): (p: nat)
    requires size >= 1 && -(Pow2(size - 1) as int) <= x < Pow2(size - 1)
    ensures p < Pow2(size)
  {
    if x < 0 then x + Pow2(size) else x
  }

  /** Two's complement reading inverts the pattern: every value of the signed range is
      recovered. */
  lemma TwosCompRoundTrip(x: int, size: nat)
    requires size >= 1 && -(Pow2(size - 1) as int) <= x < Pow2(size - 1)
    ensures TwosComp(SignedPattern(x, size), size) == x
  {
    assert Pow2(size) == 2 * Pow2(size - 1);
  }

  /** The signed pattern is the only one in range that reads back as `x`. */
  lemma TwosCompInjective(a: nat, b: nat, size: nat)
    requires size >= 1 && a < Pow2(size) && b < Pow2(size)
    requires TwosComp(a, size) == TwosComp(b, size)
    ensures a == b
  {
    assert Pow2(size) == 2 * Pow2(size - 1);
  }

  /** Decoder.bin_array_to_dec: the big-endian value of the bits, signed or not. */
  function BinArrayToDec(x: seq<Bit>, signed: bool): (r: Result<int, FieldError>)
    ensures r.Err? <==> x == []
    ensures r.Ok? && !signed ==> 0 <= r.value < Pow2(|x|) && r.value == BinToNat(x)
    ensures r.Ok? && signed ==> -(Pow2(|x| - 1) as int) <= r.value < Pow2(|x| - 1)
    ensures r.Ok? && signed ==> r.value == BinToNat(x) || r.value == BinToNat(x) - Pow2(|x|)
  {
    if x == [] then Err(EmptyField)
    else if signed then Ok(TwosComp(BinToNat(x), |x|))
    else Ok(BinToNat(x))
  }

  /** A signed field written in two's complement is read back exactly. */
  lemma SignedFieldRoundTrip(x: int, size: nat)
    requires size >= 1 && -(Pow2(size - 1) as int) <= x < Pow2(size - 1)
    ensures BinArrayToDec(NatToBits(SignedPattern(x, size), size), true) == Ok(x)
  {
    TwosCompRoundTrip(x, size);
  }

  // ---------------------------------------------------------------------------
  // The Message 1 layout.

  const MsgTypeLo := 0
  const MsgTypeHi := 6
  const MmsiLo := 8
  const MmsiHi := 38
  const LonLo := 61
  const LonHi := 89
  const LatLo := 89
  const LatHi := 116
  const CourseLo := 116
  const CourseHi := 128

  function GetMsgType(v: seq<Bit>): (r: Result<int, FieldError>)
    ensures |v| >= MsgTypeHi ==> r.Ok? && 0 <= r.value < 64
    ensures r.Err? <==> |v| == 0
  {
    BinArrayToDec(Slice(v, MsgTypeLo, MsgTypeHi), false)
  }

  function GetMmsi(v: seq<Bit>): (r: Result<int, FieldError>)
    ensures |v| >= MmsiHi ==> r.Ok? && 0 <= r.value < Pow2(30)
    ensures r.Err? <==> |v| <= MmsiLo
  {
    BinArrayToDec(Slice(v, MmsiLo, MmsiHi), false)
  }

  /** A coordinate in degrees from its raw value in 1/10000 minute (`/ 10000 / 60`). */
  function TenThousandthMinutes(raw: int): real
  {
    raw as real / 10000.0 / 60.0
  }

  /** A course in degrees from its raw value in tenths (`/ 10`). */
  function Tenths(raw: int): real
  {
    raw as real / 10.0
  }

  /** Longitude in degrees: 1/10000 minute units, so the raw value over 600000. */
  function GetLong(v: seq<Bit>): (r: Result<real, FieldError>)
    ensures r.Err? <==> |v| <= LonLo
  {
    match BinArrayToDec(Slice(v, LonLo, LonHi), true)
    case Err(e) => Err(e)
    case Ok(x) => Ok(TenThousandthMinutes(x))
  }

  /** Latitude in degrees, scaled as the longitude. */
  function GetLat(v: seq<Bit>): (r: Result<real, FieldError>)
    ensures r.Err? <==> |v| <= LatLo
  {
    match BinArrayToDec(Slice(v, LatLo, LatHi), true)
    case Err(e) => Err(e)
    case Ok(x) => Ok(TenThousandthMinutes(x))
  }

  /** Course over ground in degrees: the raw value is in tenths. */
  function GetCourse(v: seq<Bit>): (r: Result<real, FieldError>)
    ensures r.Err? <==> |v| <= CourseLo
    ensures r.Ok? ==> 0.0 <= r.value
  {
    match BinArrayToDec(Slice(v, CourseLo, CourseHi), false)
    case Err(e) => Err(e)
    case Ok(x) => Ok(Tenths(x))
  }

  /** The record Decoder.get_data builds, before its rounding to six digits; `crc` is the
      checksum verdict of the decoding that produced the bits. */
  datatype PositionData = PositionData(
    msgType: int, mmsi: int, latitude: real, longitude: real, course: real, crc: bool)

  /** Decoder.get_data: the first failing reader aborts the whole record. */
  function GetData(v: seq<Bit>, crcOk: bool): (r: Result<PositionData, FieldError>)
    ensures r.Ok? <==> |v| > CourseLo
    ensures r.Ok? ==> r.value.crc == crcOk
  {
    match GetMsgType(v)
    case Err(e) => Err(e)
    case Ok(t) =>
      match GetMmsi(v)
      case Err(e) => Err(e)
      case Ok(m) =>
        match GetLat(v)
        case Err(e) => Err(e)
        case Ok(la) =>
          match GetLong(v)
          case Err(e) => Err(e)
          case Ok(lo) =>
            match GetCourse(v)
            case Err(e) => Err(e)
            case Ok(c) => Ok(PositionData(t, m, la, lo, c, crcOk))
  }

  /** The integer contents of a position report, in the units the message carries. */
  datatype PositionReport = PositionReport(
    msgType: nat, mmsi: nat, lon: int, lat: int, course: nat)

  predicate ValidReport(p: PositionReport)
  {
    p.msgType < Pow2(6) && p.mmsi < Pow2(30)
    && -(Pow2(27) as int) <= p.lon < Pow2(27) && -(Pow2(26) as int) <= p.lat < Pow2(26)
    && p.course < Pow2(12)
  }

  /** `v` carries the report: the bits of each field the decoder reads are worth the
      report's value, unsigned or as its two's complement pattern, most-significant bit
      first. The other bits (repeat
      indicator, navigation status, rate of turn, speed, accuracy, and everything after the
      course) are unconstrained. */
  predicate Carries(v: seq<Bit>, p: PositionReport)
    requires ValidReport(p)
  {
    |v| >= CourseHi
    && BinToNat(v[MsgTypeLo..MsgTypeHi]) == p.msgType
    && BinToNat(v[MmsiLo..MmsiHi]) == p.mmsi
    && BinToNat(v[LonLo..LonHi]) == SignedPattern(p.lon, 28)
    && BinToNat(v[LatLo..LatHi]) == SignedPattern(p.lat, 27)
    && BinToNat(v[CourseLo..CourseHi]) == p.course
  }

  /** An unsigned field whose bits are worth `x` reads as `x`. */
  lemma UnsignedFieldAt(v: seq<Bit>, lo: nat, w: nat, x: nat)
    requires w >= 1 && lo + w <= |v| && BinToNat(v[lo..lo + w]) == x
    ensures BinArrayToDec(Slice(v, lo, lo + w), false) == Ok(x)
  {
  }

  /** A signed field holding the `w`-bit two's complement pattern of `x` reads as `x`. */
  lemma SignedFieldAt(v: seq<Bit>, lo: nat, w: nat, x: int)
    requires w >= 1 && -(Pow2(w - 1) as int) <= x < Pow2(w - 1) && lo + w <= |v|
    requires BinToNat(v[lo..lo + w]) == SignedPattern(x, w)
    ensures BinArrayToDec(Slice(v, lo, lo + w), true) == Ok(x)
  {
    TwosCompRoundTrip(x, w);
  }

  /** Each field of a carried report reads back as its value. */
  lemma ReadFields(v: seq<Bit>, p: PositionReport)
    requires ValidReport(p) && Carries(v, p)
    ensures BinArrayToDec(Slice(v, MsgTypeLo, MsgTypeHi), false) == Ok(p.msgType as int)
    ensures BinArrayToDec(Slice(v, MmsiLo, MmsiHi), false) == Ok(p.mmsi as int)
    ensures BinArrayToDec(Slice(v, LonLo, LonHi), true) == Ok(p.lon)
    ensures BinArrayToDec(Slice(v, LatLo, LatHi), true) == Ok(p.lat)
    ensures BinArrayToDec(Slice(v, CourseLo, CourseHi), false) == Ok(p.course as int)
  {
    UnsignedFieldAt(v, MsgTypeLo, 6, p.msgType);
    UnsignedFieldAt(v, MmsiLo, 30, p.mmsi);
    SignedFieldAt(v, LonLo, 28, p.lon);
    SignedFieldAt(v, LatLo, 27, p.lat);
    UnsignedFieldAt(v, CourseLo, 12, p.course);
  }

  lemma UnsignedReaders(v: seq<Bit>, t: int, m: int)
    requires BinArrayToDec(Slice(v, MsgTypeLo, MsgTypeHi), false) == Ok(t)
    requires BinArrayToDec(Slice(v, MmsiLo, MmsiHi), false) == Ok(m)
    ensures GetMsgType(v) == Ok(t) && GetMmsi(v) == Ok(m)
  {
  }

  lemma ScaledReaders(v: seq<Bit>, lon: int, lat: int, course: int)
    requires BinArrayToDec(Slice(v, LonLo, LonHi), true) == Ok(lon)
    requires BinArrayToDec(Slice(v, LatLo, LatHi), true) == Ok(lat)
    requires BinArrayToDec(Slice(v, CourseLo, CourseHi), false) == Ok(course)
    ensures GetLong(v) == Ok(TenThousandthMinutes(lon))
    ensures GetLat(v) == Ok(TenThousandthMinutes(lat))
    ensures GetCourse(v) == Ok(Tenths(course))
  {
  }

  /** The record is assembled from whatever the five readers return. */
  lemma GetDataOk(v: seq<Bit>, t: int, m: int, la: real, lo: real, c: real, crcOk: bool)
    requires GetMsgType(v) == Ok(t) && GetMmsi(v) == Ok(m)
    requires GetLat(v) == Ok(la) && GetLong(v) == Ok(lo) && GetCourse(v) == Ok(c)
    ensures GetData(v, crcOk) == Ok(PositionData(t, m, la, lo, c, crcOk))
  {
  }

  /** Every message carrying a report is read back as that report by the decoder's
      readers, whatever its other bits are. */
  lemma FieldsRoundTrip(v: seq<Bit>, p: PositionReport, crcOk: bool)
    requires ValidReport(p) && Carries(v, p)
    ensures GetData(v, crcOk)
         == Ok(PositionData(p.msgType, p.mmsi, TenThousandthMinutes(p.lat),
                            TenThousandthMinutes(p.lon), Tenths(p.course), crcOk))
  {
    ReadFields(v, p);
    UnsignedReaders(v, p.msgType, p.mmsi);
    ScaledReaders(v, p.lon, p.lat, p.course);
    GetDataOk(v, p.msgType, p.mmsi, TenThousandthMinutes(p.lat),
              TenThousandthMinutes(p.lon), Tenths(p.course), crcOk);
  }
}
