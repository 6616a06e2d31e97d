/** NTPv4 timestamps (section 6 of RFC 5905) as `NTP4Time` packs and serialises them.
    An instant is abstracted to integers: whole seconds since 1900-01-01 00:00 UTC and
    the sub-second part as a 64-bit binary fraction. */
module NtpTime {
  import opened Util

  newtype byte = x: int | 0 <= x < 256

  const TWO32: nat := 0x1_0000_0000
  const TWO64: nat := 0x1_0000_0000_0000_0000

  type Fraction64 = x: nat | x < 0x1_0000_0000_0000_0000

  /** Whole seconds from 1900-01-01 00:00:00 to 9999-12-31 23:59:59, the last second a
      Python `datetime` can hold. */
  const MAX_SECONDS: nat := 255_611_289_599

  type Seconds = x: nat | x <= MAX_SECONDS

  /** The time an `NTP4Time` holds: at or after 1900 and no later than year 9999. */
  datatype Instant = Instant(seconds: Seconds, fraction: Fraction64)

  function Pow256(width: nat): (r: nat)
    ensures r >= 1
  {
    if width == 0 then 1 else 256 * Pow256(width - 1)
  }

  /** The unsigned big-endian encoding of `n` in `width` bytes (struct's `!I` and `!Q`). */
  function ToBigEndian(n: nat, width: nat): (r: seq<byte>)
    requires n < Pow256(width)
    ensures |r| == width
  {
    if width == 0 then []
    else
      assert n / 256 < Pow256(width - 1);
      ToBigEndian(n / 256, width - 1) + [(n % 256) as byte]
  }

  /** The unsigned big-endian value of `bs` (struct's unpacking). */
  function FromBigEndian(bs: seq<byte>): (n: nat)
    ensures n < Pow256(|bs|)
  {
    if |bs| == 0 then 0 else FromBigEndian(bs[..|bs| - 1]) * 256 + bs[|bs| - 1] as nat
  }

  lemma {:induction false} FromToBigEndian(n: nat, width: nat)
    requires n < Pow256(width)
    ensures FromBigEndian(ToBigEndian(n, width)) == n
  {
    if width > 0 {
      var r := ToBigEndian(n, width);
      FromToBigEndian(n / 256, width - 1);
      assert r[..|r| - 1] == ToBigEndian(n / 256, width - 1);
    }
  }

  lemma {:induction false} ToFromBigEndian(bs: seq<byte>)
    ensures ToBigEndian(FromBigEndian(bs), |bs|) == bs
  {
    if |bs| > 0 {
      var init := bs[..|bs| - 1];
      var n := FromBigEndian(bs);
      ToFromBigEndian(init);
      assert n / 256 == FromBigEndian(init) && n % 256 == bs[|bs| - 1] as nat;
      assert bs == init + [bs[|bs| - 1]];
    }
  }

  /** Concatenated fields read as one big-endian number. */
  lemma {:induction false} FromBigEndianAppend(a: seq<byte>, b: seq<byte>)
    ensures FromBigEndian(a + b) == FromBigEndian(a) * Pow256(|b|) + FromBigEndian(b)
    decreases |b|
  {
    if |b| == 0 {
      assert a + b == a;
    } else {
      var ab := a + b;
      var b' := b[..|b| - 1];
      assert ab[..|ab| - 1] == a + b';
      assert ab[|ab| - 1] == b[|b| - 1];
      FromBigEndianAppend(a, b');
      ShiftByte(FromBigEndian(a), Pow256(|b'|), FromBigEndian(b'), b[|b| - 1] as nat);
    }
  }

  lemma ShiftByte(x: nat, p: nat, y: nat, d: nat)
    ensures (x * p + y) * 256 + d == x * (256 * p) + (y * 256 + d)
  {
  }

  lemma Pow256Values()
    ensures Pow256(4) == TWO32 && Pow256(8) == TWO64
  {
  }

  /** The `seconds` property and the timestamp's seconds field: `np.uint32` of the whole
      seconds since 1900, which wraps at 2^32. */
  function Seconds32(t: Instant): (s: nat)
    ensures s < TWO32
  {
    t.seconds % TWO32
  }

  /** The 32-bit fraction of the 64-bit timestamp: the sub-second part scaled by 2^32 and
      truncated. */
  function Fraction32(t: Instant): (f: nat)
    ensures f < TWO32
  {
    t.fraction / TWO32
  }

  /** `to_ntp64`: the 64-bit NTP timestamp, seconds then fraction, each big-endian. */
  function ToNtp64(t: Instant): (r: seq<byte>)
    ensures |r| == 8
  {
    Pow256Values();
    ToBigEndian(Seconds32(t), 4) + ToBigEndian(Fraction32(t), 4)
  }

  /** The bytes of `to_ntp64` are the big-endian seconds field followed by the big-endian
      fraction field. */
  lemma Ntp64Layout(t: Instant)
    ensures FromBigEndian(ToNtp64(t)[..4]) == t.seconds % TWO32
    ensures FromBigEndian(ToNtp64(t)[4..]) == t.fraction / TWO32
  {
    Pow256Values();
    var r := ToNtp64(t);
    assert r[..4] == ToBigEndian(Seconds32(t), 4);
    assert r[4..] == ToBigEndian(Fraction32(t), 4);
    FromToBigEndian(Seconds32(t), 4);
    FromToBigEndian(Fraction32(t), 4);
  }

  /** `from_ntp64`: unpacking needs exactly eight bytes; the fraction field is scaled back
      to the 64-bit fraction. */
  function FromNtp64(val: seq<byte>): (r: Option<Instant>)
    ensures r.Some? <==> |val| == 8
  {
    if |val| != 8 then None
    else
      Pow256Values();
      Some(Instant(FromBigEndian(val[..4]), FromBigEndian(val[4..]) * TWO32))
  }

  /** Decoding a 64-bit timestamp recovers the instant up to the timestamp's range
      (seconds modulo 2^32) and resolution (2^-32 s). */
  lemma Ntp64RoundTrip(t: Instant)
    ensures FromNtp64(ToNtp64(t)) == Some(Instant(t.seconds % TWO32, t.fraction / TWO32 * TWO32))
  {
    Ntp64Layout(t);
  }

  /** Every 8-byte timestamp is the encoding of the instant it decodes to. */
  lemma Ntp64BytesRoundTrip(val: seq<byte>)
    requires |val| == 8
    ensures ToNtp64(FromNtp64(val).value) == val
  {
    Pow256Values();
    var t := FromNtp64(val).value;
    assert Seconds32(t) == FromBigEndian(val[..4]);
    assert Fraction32(t) == FromBigEndian(val[4..]);
    ToFromBigEndian(val[..4]);
    ToFromBigEndian(val[4..]);
    assert val == val[..4] + val[4..];
  }

  /** The `era` property: `np.uint32` of the whole seconds divided by 2^32. */
  function Era(t: Instant): (e: nat)
    ensures e < TWO32
    ensures e * TWO32 + t.seconds % TWO32 == t.seconds
  {
    (t.seconds / TWO32) % TWO32
  }

  /** `to_ntp_date`: the 128-bit NTP date, era number, era offset (the seconds wrapped to
      32 bits) and the 64-bit fraction. The era of a representable instant is at most 59,
      so packing always succeeds. */
  function ToNtpDate(t: Instant): (r: seq<byte>)
    ensures |r| == 16
  {
    var era := t.seconds / TWO32;
    var offset := t.seconds % TWO32;
    Pow256Values();
    ToBigEndian(era, 4) + ToBigEndian(offset, 4) + ToBigEndian(t.fraction, 8)
  }

  /** The 16 bytes are the era, the era offset and the fraction, big-endian. */
  lemma NtpDateLayout(t: Instant)
    ensures var r := ToNtpDate(t);
      && FromBigEndian(r[..4]) == t.seconds / TWO32
      && FromBigEndian(r[4..8]) == t.seconds % TWO32
      && FromBigEndian(r[8..]) == t.fraction
  {
    Pow256Values();
    var era, offset := t.seconds / TWO32, t.seconds % TWO32;
    var r := ToNtpDate(t);
    assert r[..4] == ToBigEndian(era, 4);
    assert r[4..8] == ToBigEndian(offset, 4);
    assert r[8..] == ToBigEndian(t.fraction, 8);
    FromToBigEndian(era, 4);
    FromToBigEndian(offset, 4);
    FromToBigEndian(t.fraction, 8);
  }

  /** `from_ntp_date`: unpacking needs exactly 16 bytes; the seconds are recombined as
      `era * 2^32 + offset`. The `seconds` setter raises OverflowError (None) when that
      lies past the last second of year 9999. */
  function FromNtpDate(val: seq<byte>): (r: Option<Instant>)
    ensures r.Some? <==> |val| == 16 && FromBigEndian(val[..4]) * TWO32 + FromBigEndian(val[4..8]) <= MAX_SECONDS
  {
    if |val| != 16 then None
    else
      Pow256Values();
      var seconds := FromBigEndian(val[..4]) * TWO32 + FromBigEndian(val[4..8]);
      if seconds > MAX_SECONDS then None
      else Some(Instant(seconds, FromBigEndian(val[8..])))
  }

  /** Decoding the 128-bit date inverts the era/offset split exactly. */
  lemma NtpDateRoundTrip(t: Instant)
    ensures FromNtpDate(ToNtpDate(t)) == Some(t)
  {
    NtpDateLayout(t);
  }

  /** A date of era 60 is past year 9999: decoding it fails as the `seconds` setter does. */
  lemma NtpDateBeyondYear9999()
    ensures FromNtpDate(ToBigEndian(60, 4) + ToBigEndian(0, 4) + ToBigEndian(0, 8)) == None
  {
    Pow256Values();
    var val := ToBigEndian(60, 4) + ToBigEndian(0, 4) + ToBigEndian(0, 8);
    assert val[..4] == ToBigEndian(60, 4);
    assert val[4..8] == ToBigEndian(0, 4);
    FromToBigEndian(60, 4);
    FromToBigEndian(0, 4);
  }

  /** The lowercase hexadecimal digit of `v`. */
  function HexDigit(v: nat): (c: char)
    requires v < 16
  {
    if v < 10 then ('0' as int + v) as char else ('a' as int + v - 10) as char
  }

  /** `'%02x' % b`: two lowercase hex digits. */
  function HexByte(b: byte): (s: string)
    ensures |s| == 2
  {
    [HexDigit(b as nat / 16), HexDigit(b as nat % 16)]
  }

  /** The hex digits of every byte, in order. */
  function HexEncode(bs: seq<byte>): (s: string)
    ensures |s| == 2 * |bs|
  {
    if |bs| == 0 then "" else HexByte(bs[0]) + HexEncode(bs[1..])
  }

  /** `''.join(parts)`. */
  function Concat(parts: seq<string>): string
  {
    if |parts| == 0 then "" else parts[0] + Concat(parts[1..])
  }

  lemma {:induction false} ConcatHexBytes(parts: seq<string>, bs: seq<byte>)
    requires |parts| == |bs| && forall k :: 0 <= k < |bs| ==> parts[k] == HexByte(bs[k])
    ensures Concat(parts) == HexEncode(bs)
  {
    if |bs| > 0 {
      ConcatHexBytes(parts[1..], bs[1..]);
    }
  }

  /** The two characters at `2k` and `2k+1` of the encoding are the digits of byte `k`. */
  lemma {:induction false} HexEncodeAt(bs: seq<byte>, k: nat)
    requires k < |bs|
    ensures HexEncode(bs)[2 * k] == HexDigit(bs[k] as nat / 16)
    ensures HexEncode(bs)[2 * k + 1] == HexDigit(bs[k] as nat % 16)
  {
    if k > 0 {
      HexEncodeAt(bs[1..], k - 1);
    }
  }

  predicate IsLowerHexDigit(c: char)
  {
    '0' <= c <= '9' || 'a' <= c <= 'f'
  }

  /** The encoding is twice as long as the bytes and holds only lowercase hex digits. */
  lemma {:induction false} HexEncodeIsLowerHex(bs: seq<byte>)
    ensures |HexEncode(bs)| == 2 * |bs|
    ensures forall i :: 0 <= i < |HexEncode(bs)| ==> IsLowerHexDigit(HexEncode(bs)[i])
  {
    if |bs| > 0 {
      HexEncodeIsLowerHex(bs[1..]);
      var h := HexByte(bs[0]);
      var t := HexEncode(bs[1..]);
      assert HexEncode(bs) == h + t;
      assert IsLowerHexDigit(h[0]) && IsLowerHexDigit(h[1]);
    }
  }

  /** The value of a hex digit of either case, if `c` is one. */
  function HexValue(c: char): (v: Option<nat>)
    ensures v.Some? ==> v.value < 16
  {
    if '0' <= c <= '9' then Some(c as int - '0' as int)
    else if 'a' <= c <= 'f' then Some(c as int - 'a' as int + 10)
    else if 'A' <= c <= 'F' then Some(c as int - 'A' as int + 10)
    else None
  }

  /** The whitespace that Python 2's `int()` strips around its argument. */
  predicate IsSpace(c: char)
  {
    c == ' ' || c == '\t' || c == '\n' || c == '\r' || c == '\U{0b}' || c == '\U{0c}'
  }

  /** `chr(int(s[2*i:2*i+2], 16))` for one two-character slice: two hex digits; or one hex
      digit with whitespace before or after it or a leading `+`; or `-0`. Anything else
      raises (None): no digit, a negative value for `chr`, or stray characters. */
  function HexPairValue(c0: char, c1: char): (r: Option<byte>)
    ensures HexValue(c0).Some? && HexValue(c1).Some? ==>
      r == Some((HexValue(c0).value * 16 + HexValue(c1).value) as byte)
  {
    match (HexValue(c0), HexValue(c1))
    case (Some(h), Some(l)) => Some((h * 16 + l) as byte)
    case (None, Some(l)) => if IsSpace(c0) || c0 == '+' || (c0 == '-' && l == 0) then Some(l as byte) else None
    case (Some(h), None) => if IsSpace(c1) then Some(h as byte) else None
    case (None, None) => None
  }

  /** The bytes named by consecutive character pairs of `s`, when every pair parses. */
  function HexDecode(s: string): (r: Option<seq<byte>>)
    requires |s| % 2 == 0
    ensures r.Some? ==> |r.value| == |s| / 2
  {
    if forall k :: 0 <= k < |s| / 2 ==> HexPairValue(s[2 * k], s[2 * k + 1]).Some? then
      Some(seq(|s| / 2, k requires 0 <= k < |s| / 2 => HexPairValue(s[2 * k], s[2 * k + 1]).value))
    else None
  }

  lemma HexValueOfDigit(v: nat)
    requires v < 16
    ensures HexValue(HexDigit(v)) == Some(v)
  {
  }

  /** The two digits written for a byte parse back to that byte. */
  lemma HexPairOfByte(b: byte)
    ensures HexPairValue(HexDigit(b as nat / 16), HexDigit(b as nat % 16)) == Some(b)
  {
    var n := b as nat;
    HexValueOfDigit(n / 16);
    HexValueOfDigit(n % 16);
    assert n / 16 * 16 + n % 16 == n;
  }

  /** Decoding the hex encoding gives back the bytes. */
  lemma HexRoundTrip(bs: seq<byte>)
    ensures HexDecode(HexEncode(bs)) == Some(bs)
  {
    var s := HexEncode(bs);
    assert |s| / 2 == |bs|;
    forall k | 0 <= k < |bs| ensures HexPairValue(s[2 * k], s[2 * k + 1]) == Some(bs[k]) {
      HexEncodeAt(bs, k);
      HexPairOfByte(bs[k]);
    }
    var d := seq(|s| / 2, k requires 0 <= k < |s| / 2 => HexPairValue(s[2 * k], s[2 * k + 1]).value);
    assert d == bs;
  }

  /** The shared loop of `to_string` and `to_extended_string`: each byte becomes the
      two hex digits of `'%02x'`, and the slots are joined. */
  method HexSerialise(val: seq<byte>) returns (s: string)
    ensures s == HexEncode(val)
  {
    var arr := new string[|val|];
    var i := 0;
    while i < |val|
      invariant 0 <= i <= |val|
      invariant forall k :: 0 <= k < i ==> arr[k] == HexByte(val[k])
    {
      arr[i] := HexByte(val[i]);
      i := i + 1;
    }
    ConcatHexBytes(arr[..], val);
    s := Concat(arr[..]);
  }

  /** The shared loop of `from_string` and `from_extended_string`: decodes `n` character
      pairs into `n` bytes, failing at the first pair that does not parse. */
  method HexDeserialise(s: string, n: nat) returns (r: Option<seq<byte>>)
    requires |s| == 2 * n
    ensures r == HexDecode(s)
  {
    var arr := new byte[n];
    var i := 0;
    while i < n
      invariant 0 <= i <= n
      invariant forall k :: 0 <= k < i ==> HexPairValue(s[2 * k], s[2 * k + 1]) == Some(arr[k])
    {
      var v := HexPairValue(s[2 * i], s[2 * i + 1]);
      if v.None? {
        assert |s| / 2 == n;
        return None;
      }
      arr[i] := v.value;
      i := i + 1;
    }
    assert |s| / 2 == n;
    assert arr[..] == seq(|s| / 2, k requires 0 <= k < |s| / 2 => HexPairValue(s[2 * k], s[2 * k + 1]).value);
    r := Some(arr[..]);
  }

  /** `to_string`: the 64-bit timestamp as 16 lowercase hex digits. */
  method ToString(t: Instant) returns (s: string)
    ensures |s| == 16 && s == HexEncode(ToNtp64(t))
  {
    var val := ToNtp64(t);
    s := HexSerialise(val);
  }

  /** `to_extended_string`: the 128-bit date as 32 lowercase hex digits. */
  method ToExtendedString(t: Instant) returns (s: string)
    ensures |s| == 32 && s == HexEncode(ToNtpDate(t))
  {
    var val := ToNtpDate(t);
    s := HexSerialise(val);
  }

  /** `from_string`: exactly 16 characters, decoded pair by pair into the 64-bit
      timestamp. */
  method FromString(s: string) returns (r: Option<Instant>)
    ensures |s| != 16 ==> r == None
    ensures |s| == 16 ==> r == match HexDecode(s) case Some(bs) => FromNtp64(bs) case None => None
  {
    if |s| != 16 {
      return None;
    }
    var val := HexDeserialise(s, 8);
    if val.None? {
      return None;
    }
    r := FromNtp64(val.value);
  }

  /** `from_extended_string`: exactly 32 characters, decoded pair by pair into the
      128-bit date. */
  method FromExtendedString(s: string) returns (r: Option<Instant>)
    ensures |s| != 32 ==> r == None
    ensures |s| == 32 ==> r == match HexDecode(s) case Some(bs) => FromNtpDate(bs) case None => None
  {
    if |s| != 32 {
      return None;
    }
    var val := HexDeserialise(s, 16);
    if val.None? {
      return None;
    }
    r := FromNtpDate(val.value);
  }

  /** Parsing what `to_string` prints gives the instant truncated to the timestamp. */
  lemma StringRoundTrip(t: Instant)
    ensures HexDecode(HexEncode(ToNtp64(t))) == Some(ToNtp64(t))
    ensures FromNtp64(ToNtp64(t)) == Some(Instant(t.seconds % TWO32, t.fraction / TWO32 * TWO32))
  {
    HexRoundTrip(ToNtp64(t));
    Ntp64RoundTrip(t);
  }

  /** Parsing what `to_extended_string` prints gives the instant back exactly. */
  lemma ExtendedStringRoundTrip(t: Instant)
    ensures HexDecode(HexEncode(ToNtpDate(t))) == Some(ToNtpDate(t))
    ensures FromNtpDate(ToNtpDate(t)) == Some(t)
  {
    HexRoundTrip(ToNtpDate(t));
    NtpDateRoundTrip(t);
  }

  /** `to_sortable`: the 32-bit seconds field times 2^32 plus the 32-bit fraction. */
  function ToSortable(t: Instant): (v: nat)
    ensures v < TWO64
  {
    Seconds32(t) * TWO32 + Fraction32(t)
  }

  /** The sortable value is the 64-bit timestamp read as one big-endian number. */
  lemma SortableIsTimestampValue(t: Instant)
    ensures ToSortable(t) == FromBigEndian(ToNtp64(t))
  {
    Ntp64Layout(t);
    Pow256Values();
    var r := ToNtp64(t);
    assert r == r[..4] + r[4..];
    FromBigEndianAppend(r[..4], r[4..]);
  }

  /** The sortable value orders instants as the pair (seconds field, fraction field)
      ordered lexicographically, in both directions. */
  lemma SortableOrder(a: Instant, b: Instant)
    ensures ToSortable(a) < ToSortable(b) <==>
      Seconds32(a) < Seconds32(b) || (Seconds32(a) == Seconds32(b) && Fraction32(a) < Fraction32(b))
  {
  }

  /** An operand of the comparison operators: an `NTP4Time` or any other object. */
  datatype Operand = Time(t: Instant) | Other

  /** The order of the datetimes: seconds first, then the fraction. */
  predicate Before(a: Instant, b: Instant)
  {
    a.seconds < b.seconds || (a.seconds == b.seconds && a.fraction < b.fraction)
  }

  /** `__eq__`: true only for an `NTP4Time` holding the same time. */
  function Eq(a: Instant, o: Operand): (r: bool)
    ensures r <==> o == Time(a)
  {
    o.Time? && a == o.t
  }

  /** `__ne__`: true for any other object, or a different time. */
  function Ne(a: Instant, o: Operand): (r: bool)
    ensures r <==> !Eq(a, o)
  {
    !o.Time? || a != o.t
  }

  /** `__lt__`: an `NTP4Time` holding a later time; never the same time. */
  function Lt(a: Instant, o: Operand): (r: bool)
    ensures r ==> o.Time? && a.seconds <= o.t.seconds && !Eq(a, o)
  {
    o.Time? && Before(a, o.t)
  }

  /** `__gt__`: the mirror image of `__lt__`. */
  function Gt(a: Instant, o: Operand): (r: bool)
    ensures r <==> o.Time? && Lt(o.t, Time(a))
  {
    o.Time? && Before(o.t, a)
  }

  /** `__le__`: `<` or `==`. */
  function Le(a: Instant, o: Operand): (r: bool)
    ensures r <==> Lt(a, o) || Eq(a, o)
  {
    o.Time? && (Before(a, o.t) || a == o.t)
  }

  /** `__ge__`: `>` or `==`. */
  function Ge(a: Instant, o: Operand): (r: bool)
    ensures r <==> Gt(a, o) || Eq(a, o)
  {
    o.Time? && (Before(o.t, a) || a == o.t)
  }

  /** Against anything but an `NTP4Time`, only `!=` holds; `==` and `!=` always disagree. */
  lemma ComparisonsWithOther(a: Instant, o: Operand)
    ensures !o.Time? ==> !Eq(a, o) && Ne(a, o) && !Lt(a, o) && !Le(a, o) && !Gt(a, o) && !Ge(a, o)
    ensures Ne(a, o) == !Eq(a, o)
  {
  }

  /** Between two instants the operators form a strict total order and its reflexive
      closure. */
  lemma ComparisonsTotal(a: Instant, b: Instant)
    ensures Lt(a, Time(b)) == Gt(b, Time(a))
    ensures Le(a, Time(b)) == (Lt(a, Time(b)) || Eq(a, Time(b)))
    ensures Ge(a, Time(b)) == Le(b, Time(a))
    ensures Lt(a, Time(b)) || Eq(a, Time(b)) || Gt(a, Time(b))
    ensures !(Lt(a, Time(b)) && Eq(a, Time(b))) && !(Lt(a, Time(b)) && Gt(a, Time(b))) && !(Eq(a, Time(b)) && Gt(a, Time(b)))
  {
  }

  /** Within the first era the sortable value agrees with the operators: a strictly
      smaller value means an earlier instant, and an earlier instant never has a larger
      value (instants closer than 2^-32 s can share a value). */
  lemma SortableAgreesWithOrder(a: Instant, b: Instant)
    requires a.seconds < TWO32 && b.seconds < TWO32
    ensures ToSortable(a) < ToSortable(b) ==> Lt(a, Time(b))
    ensures Lt(a, Time(b)) ==> ToSortable(a) <= ToSortable(b)
  {
    SortableOrder(a, b);
    if a.seconds == b.seconds && a.fraction < b.fraction {
      assert a.fraction / TWO32 <= b.fraction / TWO32;
    }
  }

  /** Past the first era the wrapped seconds field breaks the promised order: the last
      second of era 0 sorts after the first second of era 1. */
  lemma SortableWrapsAtEraBoundary()
    ensures var a, b := Instant(TWO32 - 1, 0), Instant(TWO32, 0);
      Lt(a, Time(b)) && ToSortable(b) < ToSortable(a)
  {
  }

  /** The sort key `to_sortable` evidently means: the unwrapped seconds since 1900 times
      2^32 plus the 32-bit fraction. */
  function SortKey(t: Instant): (v: nat)
    ensures t.seconds < TWO32 ==> v == ToSortable(t)
  {
    t.seconds * TWO32 + Fraction32(t)
  }

  /** The unwrapped sort key agrees with the operators for every pair of instants. */
  lemma SortKeyAgreesWithOrder(a: Instant, b: Instant)
    ensures SortKey(a) < SortKey(b) ==> Lt(a, Time(b))
    ensures Lt(a, Time(b)) ==> SortKey(a) <= SortKey(b)
  {
    if a.seconds < b.seconds {
      assert SortKey(a) < (a.seconds + 1) * TWO32 <= SortKey(b);
    } else if a.seconds > b.seconds {
      assert SortKey(b) < (b.seconds + 1) * TWO32 <= SortKey(a);
    } else if a.fraction < b.fraction {
      assert a.fraction / TWO32 <= b.fraction / TWO32;
    }
  }

  /** Slots of `htonstr`'s `nval`: a character, or the integer 0 it starts as. */
  datatype Slot = Unset | Char(c: char)

  /** The 2-character groups of `s` in reverse order. */
  function ReverseGroups(s: string): (r: string)
    requires |s| % 2 == 0
    ensures |r| == |s|
  {
    if |s| == 0 then "" else ReverseGroups(s[2..]) + s[..2]
  }

  lemma {:induction false} ReverseGroupsAt(s: string, i: nat)
    requires |s| % 2 == 0 && i < |s| / 2
    ensures ReverseGroups(s)[2 * i] == s[|s| - 2 * i - 2]
    ensures ReverseGroups(s)[2 * i + 1] == s[|s| - 2 * i - 1]
  {
    var l := |s|;
    if i < l / 2 - 1 {
      ReverseGroupsAt(s[2..], i);
    }
  }

  /** Reversing the groups of a concatenation reverses the order of its two parts. */
  lemma {:induction false} ReverseGroupsAppend(x: string, y: string)
    requires |x| % 2 == 0 && |y| % 2 == 0
    ensures ReverseGroups(x + y) == ReverseGroups(y) + ReverseGroups(x)
    decreases |x|
  {
    if |x| == 0 {
      assert x + y == y;
    } else {
      assert (x + y)[2..] == x[2..] + y;
      assert (x + y)[..2] == x[..2];
      ReverseGroupsAppend(x[2..], y);
    }
  }

  /** Reversing the groups twice gives back the string. */
  lemma {:induction false} ReverseGroupsInvolution(s: string)
    requires |s| % 2 == 0
    ensures ReverseGroups(ReverseGroups(s)) == s
    decreases |s|
  {
    if |s| > 0 {
      ReverseGroupsAppend(ReverseGroups(s[2..]), s[..2]);
      ReverseGroupsInvolution(s[2..]);
      assert ReverseGroups(s[..2]) == ReverseGroups(s[..2][2..]) + s[..2];
      assert s[..2][2..] == "";
      assert s == s[..2] + s[2..];
    }
  }

  /** `htonstr`: on a little-endian host the 2-character groups are reversed into a fresh
      slot list; an odd length leaves the last slot at 0 and the join fails (None).
      On a big-endian host the string is returned as it is. */
  method HtonStr(val: string, littleEndian: bool) returns (r: Option<string>)
    ensures !littleEndian ==> r == Some(val)
    ensures littleEndian && |val| % 2 == 1 ==> r == None
    ensures littleEndian && |val| % 2 == 0 ==> r == Some(ReverseGroups(val))
  {
    if !littleEndian {
      return Some(val);
    }
    var l := |val|;
    var nval := new Slot[l](_ => Unset);
    var i := 0;
    while i < l / 2
      invariant 0 <= i <= l / 2
      invariant forall g :: 0 <= g < i ==> nval[2 * g] == Char(val[l - 2 * g - 2]) && nval[2 * g + 1] == Char(val[l - 2 * g - 1])
      invariant forall k :: 2 * i <= k < l ==> nval[k] == Unset
    {
      nval[i * 2] := Char(val[l - i * 2 - 2]);
      nval[i * 2 + 1] := Char(val[l - i * 2 - 1]);
      i := i + 1;
    }
    if l % 2 == 1 {
      assert nval[l - 1] == Unset;
      return None;
    }
    var out := seq(l, k requires 0 <= k < l reads nval => if nval[k].Char? then nval[k].c else ' ');
    forall k | 0 <= k < l ensures out[k] == ReverseGroups(val)[k] {
      var g := k / 2;
      ReverseGroupsAt(val, g);
      assert k == 2 * g || k == 2 * g + 1;
      assert nval[2 * g] == Char(val[l - 2 * g - 2]) && nval[2 * g + 1] == Char(val[l - 2 * g - 1]);
    }
    assert out == ReverseGroups(val);
    r := Some(out);
  }
}
