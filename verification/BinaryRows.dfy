/** Binary-protocol values, rows with a NULL bitmap, and the COM_STMT_EXECUTE payload. */
module BinaryRows {
  import opened Bytes
  import opened BitStrings
  import opened Lenenc
  import opened Terminators
  import Calendar
  import ZoneInverse
  import OracleTime
  import TextRows

  /** How a column type lays out its values. */
  datatype Layout = Signed(width: nat) | Raw(width: nat) | DateTime | Stamped | Lengthed | Unsupported

  function LayoutOf(typ: byte): Layout {
    if typ == 0x01 then Signed(1)
    else if typ == 0x02 || typ == 0x0d then Signed(2)
    else if typ == 0x03 || typ == 0x09 then Signed(4)
    else if typ == 0x08 then Signed(8)
    else if typ == 0x04 then Raw(4)
    else if typ == 0x05 then Raw(8)
    else if typ == 0x07 || typ == 0x0a || typ == 0x0c then DateTime
    else if OracleTime.IsOracleTime(typ) then Stamped
    else if typ == 0x00 || typ == 0x0f || typ == 0xf6 || 0xf9 <= typ <= 0xfe || 0xcb <= typ <= 0xd3 then Lengthed
    else Unsupported
  }

  /**
   A value. Floating-point numbers stay the bytes of their IEEE representation; an Oracle timestamp is sent as a payload
   and decoded to an instant.
   */
  datatype Datum =
    | Integer(i: int)
    | Floating(bits: seq<byte>)
    | Chars(bytes: seq<byte>)
    | OraclePayload(payload: seq<byte>)
    | OracleInstant(nanos: int)
    | ZeroTime
    | Moment(year: nat, month: nat, day: nat, hour: nat, minute: nat, second: nat, nanosecond: nat)

  /** Reading past the end of a slice panics in the driver. */
  datatype ValueRead = Read(value: Datum, consumed: nat) | BadValue(error: Error) | Panic

  // ---- decoding ----

  /** int64(intN(x)): two's complement. */
  function Sign(n: nat, width: nat): (i: int) {
    if 2 * n >= Radix(width) then n - Radix(width) else n
  }

  function ParseTime(data: seq<byte>): (r: ValueRead)
    ensures r.Read? ==> 1 <= r.consumed <= |data|
  {
    if data == [] then BadValue(UnexpectedEOF)
    else if data[0] == 0 then Read(ZeroTime, 1)
    else
      var n: nat := data[0];
      if |data| < n + 1 then BadValue(UnexpectedEOF)
      else if |data| < 5 then Panic
      else
        var year, month, day := Value(data[1..3]), data[3], data[4];
        if n < 7 then Read(Moment(year, month, day, 0, 0, 0, 0), n + 1)
        else
          var nsec := if n >= 11 then Value(data[8..12]) * 1000 else 0;
          Read(Moment(year, month, day, data[5], data[6], data[7], nsec), n + 1)
  }

  function ParseValue(data: seq<byte>, typ: byte, loc: OracleTime.Location): (r: ValueRead)
    ensures r.Read? ==> 1 <= r.consumed <= |data|
  {
    match LayoutOf(typ)
    case Signed(w) => if |data| < w then BadValue(UnexpectedEOF) else Read(Integer(Sign(Value(data[..w]), w)), w)
    case Raw(w) => if |data| < w then BadValue(UnexpectedEOF) else Read(Floating(data[..w]), w)
    case DateTime => ParseTime(data)
    case Stamped => StampValue(ReadString(data), typ, loc)
    case Lengthed => StringValue(ReadString(data))
    case Unsupported => BadValue(Malformed)
  }

  /** A NULL length inside a row reads as the empty payload. */
  function StampValue(r: StringRead, typ: byte, loc: OracleTime.Location): ValueRead {
    match r
    case Str(b, used) => StampRead(OracleTime.ParseOracleTime(b, typ, loc.session, loc.date), used)
    case Null => StampRead(OracleTime.ParseOracleTime([], typ, loc.session, loc.date), 1)
    case BadStr(e) => BadValue(e)
  }

  function StampRead(r: Result<int>, used: nat): ValueRead {
    match r
    case Ok(t) => Read(OracleInstant(t), used)
    case Err(e) => BadValue(e)
  }

  /** A NULL length inside a row reads as the empty string. */
  function StringValue(r: StringRead): ValueRead {
    match r
    case Str(b, used) => Read(Chars(b), used)
    case Null => Read(Chars([]), 1)
    case BadStr(e) => BadValue(e)
  }

  // ---- encoding ----

  /** The two's complement bytes of a signed integer. */
  function SignedBytes(i: int, width: nat): (s: seq<byte>)
    requires 0 <= i + Radix(width) && i < Radix(width)
    ensures |s| == width
  {
    LittleEndian(if i < 0 then i + Radix(width) else i, width)
  }

  function ClockBytes(t: Datum): (s: seq<byte>)
    requires t.Moment?
    ensures |s| == 7
  {
    LittleEndian(t.year, 2) + [t.month % 256, t.day % 256, t.hour % 256, t.minute % 256, t.second % 256]
  }

  /** The shortest of the three layouts that keeps the clock; fractions are cut to microseconds. */
  function PutTime(t: Datum): (s: seq<byte>)
    requires t.Moment? || t.ZeroTime?
  {
    if t.ZeroTime? then [0]
    else if t.nanosecond != 0 then [11] + ClockBytes(t) + LittleEndian(t.nanosecond / 1000, 4)
    else if t.hour != 0 || t.minute != 0 || t.second != 0 then [7] + ClockBytes(t)
    else [4] + ClockBytes(t)[..4]
  }

  /** A value that the column type can carry. */
  predicate Fits(v: Datum, typ: byte) {
    match LayoutOf(typ)
    case Signed(w) => v.Integer? && 0 <= 2 * v.i + Radix(w) && 2 * v.i < Radix(w)
    case Raw(w) => v.Floating? && |v.bits| == w
    case DateTime => v.ZeroTime? || (v.Moment? && ValidTime(v))
    case Stamped => v.OraclePayload? && |v.payload| < U64
    case Lengthed => v.Chars? && |v.bytes| < U64
    case Unsupported => false
  }

  predicate ValidTime(t: Datum)
    requires t.Moment?
  {
    && t.year < 0x1_0000 && t.month < 256 && t.day < 256 && t.hour < 256 && t.minute < 256 && t.second < 256
    && t.nanosecond < 1_000_000_000
  }

  function PutValue(v: Datum, typ: byte): (s: seq<byte>)
    requires Fits(v, typ)
  {
    match v
    case Integer(i) => SignedBytes(i, LayoutOf(typ).width)
    case Floating(bits) => bits
    case Chars(b) => PutString(b)
    case OraclePayload(b) => PutString(b)
    case _ => PutTime(v)
  }

  /** What is left of a value after a trip over the wire: times lose everything below a microsecond. */
  function OnWire(v: Datum): Datum {
    if v.Moment? then v.(nanosecond := v.nanosecond / 1000 * 1000) else v
  }

  /** What a sent value comes to: Oracle timestamps are decoded, and may fail to. */
  function Delivered(v: Datum, typ: byte, loc: OracleTime.Location): (r: Result<Datum>) {
    if !v.OraclePayload? then Ok(OnWire(v))
    else
      match OracleTime.ParseOracleTime(v.payload, typ, loc.session, loc.date)
      case Ok(t) => Ok(OracleInstant(t))
      case Err(e) => Err(e)
  }

  /** A length byte of 1 to 3 followed by no more than three further bytes. */
  predicate ShortTime(data: seq<byte>) {
    data != [] && 1 <= data[0] <= 3 && data[0] < |data| < 5
  }

  /** Reading past the end happens exactly then. */
  lemma {:induction false} ShortTimePanics(data: seq<byte>)
    ensures ParseTime(data) == Panic <==> ShortTime(data)
  {
    hide Value;
  }

  /** With more bytes behind it, a short time takes month and day from the next value and leaves them to be read again. */
  lemma {:induction false} ShortTimeReadsOn(data: seq<byte>)
    requires |data| >= 5 && 1 <= data[0] <= 3
    ensures var r := ParseTime(data);
            && r.Read? && r.consumed == data[0] as int + 1 <= 4
            && r.value == Moment(Value(data[1..3]), data[3], data[4], 0, 0, 0, 0)
  {
    hide Value;
  }

  lemma {:induction false} SignedRoundTrip(i: int, w: nat)
    requires 0 <= 2 * i + Radix(w) && 2 * i < Radix(w)
    ensures Sign(Value(SignedBytes(i, w)), w) == i
  {
    hide LittleEndian, Value, Radix;
    var n := if i < 0 then i + Radix(w) else i;
    ValueOfLittleEndian(n, w);
    SmallModulus(n, Radix(w));
  }

  lemma {:induction false} SmallModulus(n: nat, m: nat)
    requires n < m
    ensures n % m == n
  {
  }

  /** The fields of a time behind a length byte. */
  lemma {:induction false} ClockRead(t: Datum, s: seq<byte>)
    requires t.Moment? && ValidTime(t) && |s| >= 5 && s[1..5] == ClockBytes(t)[..4]
    ensures Value(s[1..3]) == t.year && s[3] == t.month && s[4] == t.day
  {
    hide LittleEndian, Value, Radix;
    RadixValues();
    ValueOfLittleEndian(t.year, 2);
    assert ClockBytes(t)[..2] == LittleEndian(t.year, 2);
    assert s[1..3] == s[1..5][..2] == ClockBytes(t)[..4][..2] == LittleEndian(t.year, 2);
    assert s[3] == s[1..5][2] == ClockBytes(t)[2] && s[4] == s[1..5][3] == ClockBytes(t)[3];
  }

  lemma {:induction false} TimeRoundTrip(t: Datum, rest: seq<byte>)
    requires t.ZeroTime? || (t.Moment? && ValidTime(t))
    ensures ParseTime(PutTime(t) + rest) == Read(OnWire(t), |PutTime(t)|)
  {
    hide LittleEndian, Value, Radix;
    RadixValues();
    var s := PutTime(t) + rest;
    if t.Moment? {
      assert s[1..5] == ClockBytes(t)[..4];
      ClockRead(t, s);
      assert Value(s[1..3]) == t.year;
      assert s[0] >= 7 ==> s[5] == t.hour && s[6] == t.minute && s[7] == t.second;
      if t.nanosecond != 0 {
        ValueOfLittleEndian(t.nanosecond / 1000, 4);
        assert s[8..12] == LittleEndian(t.nanosecond / 1000, 4);
      }
    }
  }

  /** A value reads back as what it is delivered as, or with the error of its timestamp. */
  lemma {:induction false} ValueRoundTrip(v: Datum, typ: byte, rest: seq<byte>, loc: OracleTime.Location)
    requires Fits(v, typ)
    ensures ParseValue(PutValue(v, typ) + rest, typ, loc) ==
            match Delivered(v, typ, loc)
            case Ok(w) => Read(w, |PutValue(v, typ)|)
            case Err(e) => BadValue(e)
  {
    hide LayoutOf, SignedBytes, Sign, PutString, ReadString, ParseTime, PutTime, Radix, Value, OracleTime.ParseOracleTime;
    var s := PutValue(v, typ);
    assert (s + rest)[..|s|] == s;
    match v {
      case Integer(i) => SignedRoundTrip(i, LayoutOf(typ).width);
      case Floating(_) =>
      case Chars(b) => StringRoundTrip(b, rest);
      case OraclePayload(b) => StringRoundTrip(b, rest);
      case _ => TimeRoundTrip(v, rest);
    }
  }

  // ---- Oracle timestamps in a row ----

  lemma {:induction false} StampReads(payload: seq<byte>, typ: byte, rest: seq<byte>, loc: OracleTime.Location)
    requires |payload| < U64 && OracleTime.IsOracleTime(typ)
    ensures ParseValue(PutString(payload) + rest, typ, loc) ==
            StampRead(OracleTime.ParseOracleTime(payload, typ, loc.session, loc.date), |PutString(payload)|)
  {
    hide PutString, ReadString, ParseTime, OracleTime.ParseOracleTime;
    StringRoundTrip(payload, rest);
  }

  /** A column with an offset: the civil time less the offset. */
  lemma {:induction false} ZonedColumn(c: Calendar.Civil, scale: int, offset: int, name: seq<byte>,
                                       abbreviation: seq<byte>, rest: seq<byte>, loc: OracleTime.Location)
    requires OracleTime.Representable(c, scale) && -779 <= offset <= 840 && |name| < 256 && |abbreviation| < 256
    requires OracleTime.Honest(loc.date)
    ensures var s := PutString(OracleTime.ZonedBytes(c, scale, offset, name, abbreviation));
            ParseValue(s + rest, OracleTime.TimestampTZ, loc) ==
            Read(OracleInstant(Calendar.Nanos(c) - offset * OracleTime.NanosPerMinute), |s|)
  {
    hide OracleTime.Honest, OracleTime.Representable, OracleTime.ZonedBytes, ParseValue, PutString,
         OracleTime.ParseOracleTime, Calendar.Nanos;
    ZonedLength(c, scale, offset, name, abbreviation);
    OracleTime.ZonedInstant(c, scale, offset, name, abbreviation, loc.session, loc.date);
    StampReads(OracleTime.ZonedBytes(c, scale, offset, name, abbreviation), OracleTime.TimestampTZ, rest, loc);
  }

  lemma {:induction false} ZonedLength(c: Calendar.Civil, scale: int, offset: int, name: seq<byte>,
                                       abbreviation: seq<byte>)
    requires OracleTime.Representable(c, scale) && -779 <= offset <= 840 && |name| < 256 && |abbreviation| < 256
    ensures |OracleTime.ZonedBytes(c, scale, offset, name, abbreviation)| < U64
  {
  }

  /** Columns without an offset: UTC, or the only instant that the session's clock shows, or an error. */
  lemma {:induction false} CivilColumn(c: Calendar.Civil, scale: int, rest: seq<byte>, loc: OracleTime.Location, t: int)
    requires OracleTime.Representable(c, scale) && OracleTime.Honest(loc.date)
    requires loc.session.Some? ==> ZoneInverse.WellSpaced(loc.session.value)
    ensures var s := PutString(OracleTime.CivilBytes(c, scale));
            && ParseValue(s + rest, OracleTime.TimestampNano, loc) == Read(OracleInstant(Calendar.Nanos(c)), |s|)
            && (ParseValue(s + rest, OracleTime.TimestampLTZ, loc) == Read(OracleInstant(t), |s|)
                <==> loc.session.Some?
                     && forall u :: ZoneInverse.Wall(loc.session.value, u) == Calendar.Nanos(c) <==> u == t)
  {
    hide OracleTime.Honest, OracleTime.Representable, ParseValue, PutString, OracleTime.ParseOracleTime, Calendar.Nanos,
         ZoneInverse.Wall, ZoneInverse.WellSpaced;
    var payload := OracleTime.CivilBytes(c, scale);
    OracleTime.PlainInstant(c, scale, loc.session, loc.date);
    OracleTime.LocalInstant(c, scale, loc.session, loc.date, t);
    StampReads(payload, OracleTime.TimestampNano, rest, loc);
    StampReads(payload, OracleTime.TimestampLTZ, rest, loc);
  }

  // ---- NULL bitmaps ----

  /** As few bytes as have room for the bits. */
  function BitmapLen(n: nat, offset: nat): (k: nat)
    ensures 8 * k >= n + offset > 8 * k - 8
  {
    (n + 7 + offset) / 8
  }

  /** The bitmap with bit i + offset set exactly for the NULL positions i. */
  function Bitmap(nulls: Bits, offset: nat): (s: seq<byte>)
    ensures |s| == BitmapLen(|nulls|, offset)
  {
    Pack(Checkered(nulls, offset))
  }

  function Checkered(nulls: Bits, offset: nat): (r: Bits)
    ensures |r| == 8 * BitmapLen(|nulls|, offset)
  {
    seq(8 * BitmapLen(|nulls|, offset), i => offset <= i < offset + |nulls| && nulls[i - offset])
  }

  /** Every bit index is inside the bitmap, and testing the bit tells whether the column is NULL. */
  lemma {:induction false} BitmapBit(nulls: Bits, offset: nat, i: nat)
    requires i < |nulls|
    ensures (i + offset) / 8 < |Bitmap(nulls, offset)|
    ensures TestBit(Bitmap(nulls, offset)[(i + offset) / 8], (i + offset) % 8) <==> nulls[i]
  {
    hide Pack, TestBit;
    MessageBitsOfPack(Checkered(nulls, offset));
    MessageBitAt(Bitmap(nulls, offset), i + offset);
  }

  // ---- rows ----

  /** A row: NULL or a value for every column. */
  type Row = seq<Option<Datum>>

  predicate ValidRow(row: Row, types: seq<byte>) {
    |row| == |types| && forall i :: 0 <= i < |row| && row[i].Some? ==> Fits(row[i].value, types[i])
  }

  function Nulls(row: Row): (r: Bits)
    ensures |r| == |row|
  {
    seq(|row|, i requires 0 <= i < |row| => row[i].None?)
  }

  /** The values of the columns that are not NULL, one after the other. */
  function PutValues(row: Row, types: seq<byte>): (s: seq<byte>)
    requires ValidRow(row, types)
  {
    if row == [] then []
    else (if row[0].Some? then PutValue(row[0].value, types[0]) else []) + PutValues(row[1..], types[1..])
  }

  function PutRow(row: Row, types: seq<byte>): (s: seq<byte>)
    requires ValidRow(row, types)
  {
    [OKHeader] + Bitmap(Nulls(row), 2) + PutValues(row, types)
  }

  datatype RowRead = Row(row: Row) | BadRow(error: Error) | RowPanic

  /** The columns from `i` on, with their values at the front of `s`. */
  function ParseValues(s: seq<byte>, types: seq<byte>, i: nat, bitmap: seq<byte>, offset: nat,
                       loc: OracleTime.Location): (r: RowRead)
    requires i <= |types| && |bitmap| == BitmapLen(|types|, offset)
    decreases |types| - i
  {
    if i == |types| then if s == [] then Row([]) else BadRow(Malformed)
    else if TestBit(bitmap[(i + offset) / 8], (i + offset) % 8) then
      ConsValue(None, ParseValues(s, types, i + 1, bitmap, offset, loc))
    else
      match ParseValue(s, types[i], loc)
      case BadValue(e) => BadRow(e)
      case Panic => RowPanic
      case Read(v, used) => ConsValue(Some(v), ParseValues(s[used..], types, i + 1, bitmap, offset, loc))
  }

  function ConsValue(v: Option<Datum>, r: RowRead): RowRead {
    match r
    case Row(row) => Row([v] + row)
    case _ => r
  }

  function AppendRow(row: Row, r: RowRead): RowRead {
    match r
    case Row(more) => Row(row + more)
    case _ => r
  }

  lemma {:induction false} AppendConsValue(row: Row, v: Option<Datum>, r: RowRead)
    ensures AppendRow(row, ConsValue(v, r)) == AppendRow(row + [v], r)
    ensures AppendRow([], r) == r && AppendRow(row, Row([])) == Row(row)
    ensures !r.Row? ==> AppendRow(row, r) == r
  {
    if r.Row? {
      assert row + ([v] + r.row) == row + [v] + r.row && [] + r.row == r.row;
    }
    assert row + [] == row;
  }

  function ParseRow(packet: seq<byte>, types: seq<byte>, loc: OracleTime.Location): (r: RowRead)
  {
    var n := BitmapLen(|types|, 2);
    if |packet| == 0 || packet[0] != OKHeader then BadRow(Malformed)
    else if |packet| < 1 + n then BadRow(UnexpectedEOF)
    else ParseValues(packet[1 + n..], types, 0, packet[1..1 + n], 2, loc)
  }

  /** The row parser: bitmap test or value at the cursor, column by column, and no byte left over. */
  method ParseBinaryRow(packet: seq<byte>, types: seq<byte>, loc: OracleTime.Location) returns (r: RowRead)
    ensures r == ParseRow(packet, types, loc)
  {
    hide AppendRow, ConsValue, ParseValue, TestBit;
    if |packet| == 0 || packet[0] != OKHeader {
      return BadRow(Malformed);
    }
    var pos: nat := 1;
    var bitmapLen := BitmapLen(|types|, 2);
    if |packet| < pos + bitmapLen {
      return BadRow(UnexpectedEOF);
    }
    var bitmap := packet[pos..pos + bitmapLen];
    pos := pos + bitmapLen;
    var row: Row := [];
    AppendConsValue([], None, ParseRow(packet, types, loc));
    for i := 0 to |types|
      invariant pos <= |packet|
      invariant ParseRow(packet, types, loc) == AppendRow(row, ParseValues(packet[pos..], types, i, bitmap, 2, loc))
    {
      if TestBit(bitmap[(i + 2) / 8], (i + 2) % 8) {
        AppendConsValue(row, None, ParseValues(packet[pos..], types, i + 1, bitmap, 2, loc));
        row := row + [None];
      } else {
        match ParseValue(packet[pos..], types[i], loc) {
          case BadValue(e) =>
            AppendConsValue(row, None, BadRow(e));
            return BadRow(e);
          case Panic =>
            AppendConsValue(row, None, RowPanic);
            return RowPanic;
          case Read(v, used) =>
            assert packet[pos..][used..] == packet[pos + used..];
            AppendConsValue(row, Some(v), ParseValues(packet[pos + used..], types, i + 1, bitmap, 2, loc));
            row, pos := row + [Some(v)], pos + used;
        }
      }
    }
    AppendConsValue(row, None, BadRow(Malformed));
    return if pos != |packet| then BadRow(Malformed) else Row(row);
  }

  /** What the columns from `i` on are delivered as, or the first error. */
  function DeliveredRow(row: Row, types: seq<byte>, i: nat, loc: OracleTime.Location): (r: RowRead)
    requires i <= |row| == |types|
    ensures r.Row? ==> |r.row| == |row| - i
    decreases |row| - i
  {
    if i == |row| then Row([])
    else if row[i].None? then ConsValue(None, DeliveredRow(row, types, i + 1, loc))
    else
      match Delivered(row[i].value, types[i], loc)
      case Err(e) => BadRow(e)
      case Ok(v) => ConsValue(Some(v), DeliveredRow(row, types, i + 1, loc))
  }

  predicate DeliveredAs(row: Row, types: seq<byte>, k: nat, loc: OracleTime.Location, v: Option<Datum>)
    requires k < |row| == |types|
  {
    if row[k].None? then v == None else v.Some? && Delivered(row[k].value, types[k], loc) == Ok(v.value)
  }

  /** A row is delivered exactly when each of its columns is. */
  lemma {:induction false} DeliveredEach(row: Row, types: seq<byte>, i: nat, loc: OracleTime.Location, out: Row)
    requires i <= |row| == |types| == |out|
    ensures DeliveredRow(row, types, i, loc) == Row(out[i..])
            <==> forall k :: i <= k < |row| ==> DeliveredAs(row, types, k, loc, out[k])
    decreases |row| - i
  {
    if i < |row| {
      hide DeliveredRow, DeliveredAs;
      DeliveredEach(row, types, i + 1, loc, out);
      DeliveredStep(row, types, i, loc, out);
    } else {
      assert out[i..] == [];
    }
  }

  lemma {:induction false} DeliveredStep(row: Row, types: seq<byte>, i: nat, loc: OracleTime.Location, out: Row)
    requires i < |row| == |types| == |out|
    ensures DeliveredRow(row, types, i, loc) == Row(out[i..])
            <==> DeliveredAs(row, types, i, loc, out[i]) && DeliveredRow(row, types, i + 1, loc) == Row(out[i + 1..])
  {
    hide Delivered;
    assert out[i..] == [out[i]] + out[i + 1..] && out[i..][1..] == out[i + 1..];
  }

  lemma {:induction false} ValuesRoundTrip(row: Row, types: seq<byte>, i: nat, bitmap: seq<byte>, offset: nat,
                                           suffix: seq<byte>, loc: OracleTime.Location)
    requires ValidRow(row, types) && i <= |row| && bitmap == Bitmap(Nulls(row), offset)
    ensures ParseValues(PutValues(row[i..], types[i..]) + suffix, types, i, bitmap, offset, loc) ==
            var r := DeliveredRow(row, types, i, loc);
            if r.Row? && suffix != [] then BadRow(Malformed) else r
    decreases |row| - i
  {
    hide PutValue, ParseValue, TestBit, Fits, Delivered, Bitmap;
    if i < |row| {
      BitmapBit(Nulls(row), offset, i);
      var rest := PutValues(row[i + 1..], types[i + 1..]) + suffix;
      assert row[i..][1..] == row[i + 1..] && types[i..][1..] == types[i + 1..];
      ValuesRoundTrip(row, types, i + 1, bitmap, offset, suffix, loc);
      if row[i].Some? {
        var head := PutValue(row[i].value, types[i]);
        ValueRoundTrip(row[i].value, types[i], rest, loc);
        assert PutValues(row[i..], types[i..]) + suffix == head + rest;
        assert (head + rest)[|head|..] == rest;
      } else {
        assert PutValues(row[i..], types[i..]) + suffix == rest;
      }
    } else {
      assert PutValues(row[i..], types[i..]) + suffix == suffix;
    }
  }

  /**
   Any number of columns: parsing an encoded row delivers every column, or the error of the first timestamp that does
   not decode; it rejects the row with bytes left over.
   */
  lemma {:induction false} RowRoundTrip(row: Row, types: seq<byte>, suffix: seq<byte>, loc: OracleTime.Location)
    requires ValidRow(row, types)
    ensures ParseRow(PutRow(row, types) + suffix, types, loc) ==
            var r := DeliveredRow(row, types, 0, loc);
            if r.Row? && suffix != [] then BadRow(Malformed) else r
  {
    hide ParseValues, PutValues, Bitmap, Nulls, DeliveredRow;
    var bitmap := Bitmap(Nulls(row), 2);
    var packet := PutRow(row, types) + suffix;
    var n := BitmapLen(|types|, 2);
    assert packet[1..1 + n] == bitmap && packet[1 + n..] == PutValues(row, types) + suffix;
    assert row[0..] == row && types[0..] == types;
    ValuesRoundTrip(row, types, 0, bitmap, 2, suffix, loc);
  }

  /** What is still to be read when column `k` is reached, if it is. */
  function RestAt(s: seq<byte>, types: seq<byte>, i: nat, k: nat, bitmap: seq<byte>, offset: nat,
                  loc: OracleTime.Location): (r: Option<seq<byte>>)
    requires i <= k <= |types| && |bitmap| == BitmapLen(|types|, offset)
    decreases k - i
  {
    if i == k then Some(s)
    else if TestBit(bitmap[(i + offset) / 8], (i + offset) % 8) then RestAt(s, types, i + 1, k, bitmap, offset, loc)
    else
      match ParseValue(s, types[i], loc)
      case Read(_, used) => RestAt(s[used..], types, i + 1, k, bitmap, offset, loc)
      case _ => None
  }

  /** Column `k` is reached, is not NULL, and is a time whose length byte is 1 to 3 at the end of the packet. */
  predicate PanicsAt(s: seq<byte>, types: seq<byte>, i: nat, k: nat, bitmap: seq<byte>, offset: nat,
                     loc: OracleTime.Location)
    requires i <= k < |types| && |bitmap| == BitmapLen(|types|, offset)
  {
    && !TestBit(bitmap[(k + offset) / 8], (k + offset) % 8) && LayoutOf(types[k]).DateTime?
    && var r := RestAt(s, types, i, k, bitmap, offset, loc); r.Some? && ShortTime(r.value)
  }

  lemma {:induction false} ValuePanics(s: seq<byte>, typ: byte, loc: OracleTime.Location)
    ensures ParseValue(s, typ, loc) == Panic <==> LayoutOf(typ).DateTime? && ShortTime(s)
  {
    hide ParseTime, ShortTime, Value, Sign, OracleTime.ParseOracleTime;
    ShortTimePanics(s);
  }

  lemma {:induction false} RestFurther(s: seq<byte>, rest: seq<byte>, types: seq<byte>, i: nat, bitmap: seq<byte>,
                                       offset: nat, loc: OracleTime.Location)
    requires i < |types| && |bitmap| == BitmapLen(|types|, offset)
    requires var isNull, v := TestBit(bitmap[(i + offset) / 8], (i + offset) % 8), ParseValue(s, types[i], loc);
             if isNull then rest == s else v.Read? && rest == s[v.consumed..]
    ensures forall k :: i < k < |types| ==>
              (PanicsAt(s, types, i, k, bitmap, offset, loc) <==> PanicsAt(rest, types, i + 1, k, bitmap, offset, loc))
    ensures ParseValues(s, types, i, bitmap, offset, loc) == RowPanic
            <==> ParseValues(rest, types, i + 1, bitmap, offset, loc) == RowPanic
  {
    hide ParseValue, TestBit, ShortTime, LayoutOf;
  }

  /** The row parser reads past the end of the packet exactly then. */
  lemma {:induction false} RowPanics(s: seq<byte>, types: seq<byte>, i: nat, bitmap: seq<byte>, offset: nat,
                                     loc: OracleTime.Location)
    requires i <= |types| && |bitmap| == BitmapLen(|types|, offset)
    ensures ParseValues(s, types, i, bitmap, offset, loc) == RowPanic
            <==> exists k :: i <= k < |types| && PanicsAt(s, types, i, k, bitmap, offset, loc)
    decreases |types| - i
  {
    hide ParseValue, TestBit, ShortTime, LayoutOf;
    if i < |types| {
      ValuePanics(s, types[i], loc);
      var isNull := TestBit(bitmap[(i + offset) / 8], (i + offset) % 8);
      var v := ParseValue(s, types[i], loc);
      if isNull || v.Read? {
        var rest := if isNull then s else s[v.consumed..];
        RowPanics(rest, types, i + 1, bitmap, offset, loc);
        RestFurther(s, rest, types, i, bitmap, offset, loc);
        assert !PanicsAt(s, types, i, i, bitmap, offset, loc);
        if exists k :: i <= k < |types| && PanicsAt(s, types, i, k, bitmap, offset, loc) {
          var k :| i <= k < |types| && PanicsAt(s, types, i, k, bitmap, offset, loc);
          assert PanicsAt(rest, types, i + 1, k, bitmap, offset, loc);
        }
        var next := i + 1;
        if exists k :: next <= k < |types| && PanicsAt(rest, types, next, k, bitmap, offset, loc) {
          var k :| next <= k < |types| && PanicsAt(rest, types, next, k, bitmap, offset, loc);
          assert PanicsAt(s, types, i, k, bitmap, offset, loc);
        }
      } else if v.Panic? {
        assert PanicsAt(s, types, i, i, bitmap, offset, loc);
      }
    }
  }

  /** A binary row is never taken for an error or a terminator. */
  lemma {:induction false} BinaryRowIsRow(row: Row, types: seq<byte>, track: bool)
    requires ValidRow(row, types)
    ensures TextRows.IsRow(PutRow(row, types), track)
  {
    assert PutRow(row, types)[0] == OKHeader;
  }

  // ---- COM_STMT_EXECUTE ----

  /** A bound argument; a number is the bytes of its IEEE representation. */
  datatype Arg =
    | Nil
    | Int64(i: int)
    | Float64(bits: seq<byte>)
    | Text(bytes: seq<byte>)
    | Blob(bytes: seq<byte>)
    | Instant(t: Datum)
    | Bool(b: bool)
    | Other

  function ParamType(a: Arg): (typ: byte) {
    match a
    case Nil => 0x06
    case Int64(_) => 0x08
    case Float64(_) => 0x05
    case Text(_) => 0xfd
    case Blob(_) => 0xfd
    case Instant(_) => 0x0c
    case Bool(_) => 0x01
    case Other => 0xfd
  }

  /** The column value an argument becomes; None for nil. */
  function ArgValue(a: Arg): (v: Option<Datum>) {
    match a
    case Nil => None
    case Int64(i) => Some(Integer(i))
    case Float64(bits) => Some(Floating(bits))
    case Text(b) => Some(Chars(b))
    case Blob(b) => Some(Chars(b))
    case Instant(t) => Some(t)
    case Bool(b) => Some(Integer(if b then 1 else 0))
    case Other => None
  }

  predicate ValidArg(a: Arg) {
    ArgValue(a).Some? ==> Fits(ArgValue(a).value, ParamType(a))
  }

  function ArgRow(args: seq<Arg>): (row: Row)
    ensures |row| == |args|
  {
    seq(|args|, i requires 0 <= i < |args| => ArgValue(args[i]))
  }

  function ParamTypes(args: seq<Arg>): (types: seq<byte>)
    ensures |types| == |args|
  {
    seq(|args|, i requires 0 <= i < |args| => ParamType(args[i]))
  }

  function TypeBytes(types: seq<byte>): (s: seq<byte>)
    ensures |s| == 2 * |types|
  {
    seq(2 * |types|, i requires 0 <= i < 2 * |types| => if i % 2 == 0 then types[i / 2] else 0)
  }

  predicate Sendable(args: seq<Arg>) {
    forall i :: 0 <= i < |args| ==> !args[i].Other?
  }

  predicate ValidArgs(args: seq<Arg>) {
    forall i :: 0 <= i < |args| ==> ValidArg(args[i])
  }

  lemma {:induction false} ArgRowValid(args: seq<Arg>)
    requires ValidArgs(args)
    ensures ValidRow(ArgRow(args), ParamTypes(args))
  {
    hide Fits;
    forall i | 0 <= i < |args| && ArgRow(args)[i].Some?
      ensures Fits(ArgRow(args)[i].value, ParamTypes(args)[i])
    {
      assert ValidArg(args[i]);
    }
  }

  function ExecuteHeader(stmtID: nat): (s: seq<byte>)
    ensures |s| == 10
  {
    [0x17] + LittleEndian(stmtID, 4) + [0] + LittleEndian(1, 4)
  }

  function ArgValues(args: seq<Arg>): (s: seq<byte>)
    requires ValidArgs(args)
  {
    ArgRowValid(args);
    PutValues(ArgRow(args), ParamTypes(args))
  }

  /** Header, then for any arguments NULL bitmap, new-parameters flag, types and values. */
  function ExecutePayload(stmtID: nat, args: seq<Arg>): (s: seq<byte>)
    requires ValidArgs(args)
  {
    ExecuteHeader(stmtID)
    + if args == [] then [] else Bitmap(Nulls(ArgRow(args)), 0) + [1] + TypeBytes(ParamTypes(args)) + ArgValues(args)
  }

  /** What is left of a row after a trip over the wire. */
  function RowOnWire(row: Row): (r: Row)
    ensures |r| == |row|
  {
    seq(|row|, i requires 0 <= i < |row| => if row[i].None? then None else Some(OnWire(row[i].value)))
  }

  /** Arguments are never of a type for which the location matters. */
  const Nowhere: OracleTime.Location := OracleTime.Location(None, (z, w) => w)

  lemma {:induction false} ArgsDelivered(args: seq<Arg>)
    requires ValidArgs(args)
    ensures DeliveredRow(ArgRow(args), ParamTypes(args), 0, Nowhere) == Row(RowOnWire(ArgRow(args)))
  {
    hide DeliveredRow, OracleTime.ParseOracleTime;
    var row, types := ArgRow(args), ParamTypes(args);
    forall k | 0 <= k < |args|
      ensures DeliveredAs(row, types, k, Nowhere, RowOnWire(row)[k])
    {
      assert ValidArg(args[k]);
    }
    DeliveredEach(row, types, 0, Nowhere, RowOnWire(row));
    assert RowOnWire(row)[0..] == RowOnWire(row);
  }

  /** A server reading the payload of a statement with `n` parameters. */
  function DecodeExecute(s: seq<byte>, n: nat): (r: Option<(nat, RowRead)>)
  {
    if |s| < 10 || s[0] != 0x17 || s[5] != 0 || s[6..10] != [1, 0, 0, 0] then None
    else if n == 0 then if |s| == 10 then Some((Value(s[1..5]), Row([]))) else None
    else
      match DecodeParams(s[10..], n)
      case None => None
      case Some(row) => Some((Value(s[1..5]), row))
  }

  function DecodeParams(s: seq<byte>, n: nat): (r: Option<RowRead>)
  {
    var m := BitmapLen(n, 0);
    if |s| < m + 1 + 2 * n || s[m] != 1 then None
    else Some(ParseValues(s[m + 1 + 2 * n..], EveryOther(s[m + 1..m + 1 + 2 * n]), 0, s[..m], 0, Nowhere))
  }

  function EveryOther(s: seq<byte>): (types: seq<byte>)
    ensures |types| == |s| / 2
  {
    seq(|s| / 2, i requires 0 <= i < |s| / 2 => s[2 * i])
  }

  /** The NULL bits of the first `i` arguments. */
  function NullsUpTo(args: seq<Arg>, i: nat): (r: Bits)
    requires i <= |args|
    ensures |r| == 8 * BitmapLen(|args|, 0)
  {
    seq(8 * BitmapLen(|args|, 0), k => 0 <= k < i && args[k].Nil?)
  }

  lemma {:induction false} SetMessageBit(s: seq<byte>, j: nat, k: nat)
    requires j < |s| && k < 8
    ensures SetBit(s[j], k) < 256
    ensures MessageBits(s[j := SetBit(s[j], k)]) == MessageBits(s)[8 * j + k := true]
    decreases |s|
  {
    hide BitsOf, SetBit, Two;
    TwoTo8();
    SetBitBits(s[j], 8, k);
    if j == 0 {
      assert s[0 := SetBit(s[0], k)][1..] == s[1..];
    } else {
      SetMessageBit(s[1..], j - 1, k);
      assert s[j := SetBit(s[j], k)][1..] == s[1..][j - 1 := SetBit(s[j], k)];
    }
  }

  /** Setting NULL bits in place, argument by argument, builds the bitmap of the NULL arguments. */
  method WriteNullBitmap(args: seq<Arg>) returns (bitmap: array<byte>)
    requires Sendable(args)
    ensures fresh(bitmap) && bitmap[..] == Bitmap(Nulls(ArgRow(args)), 0)
  {
    hide MessageBits, Pack, SetBit;
    bitmap := new byte[BitmapLen(|args|, 0)](i => 0);
    ZeroBitmap(bitmap[..], args);
    for i := 0 to |args|
      invariant MessageBits(bitmap[..]) == NullsUpTo(args, i)
    {
      if args[i].Nil? {
        SetMessageBit(bitmap[..], i / 8, i % 8);
        assert NullsUpTo(args, i + 1) == NullsUpTo(args, i)[i := true];
        bitmap[i / 8] := SetBit(bitmap[i / 8], i % 8);
      } else {
        assert NullsUpTo(args, i + 1) == NullsUpTo(args, i);
      }
    }
    var nulls := Nulls(ArgRow(args));
    assert NullsUpTo(args, |args|) == Checkered(nulls, 0);
    MessageBitsOfPack(Checkered(nulls, 0));
    MessageBitsInjective(bitmap[..], Bitmap(nulls, 0));
  }

  lemma {:induction false} ZeroBitmap(s: seq<byte>, args: seq<Arg>)
    requires |s| == BitmapLen(|args|, 0) && forall i :: 0 <= i < |s| ==> s[i] == 0
    ensures MessageBits(s) == NullsUpTo(args, 0)
  {
    forall i | 0 <= i < 8 * |s|
      ensures !MessageBits(s)[i]
    {
      MessageBitAt(s, i);
    }
  }

  /** writeExecute: the payload, or an error and nothing sent when an argument has an unsupported type. */
  method WriteExecute(stmtID: nat, args: seq<Arg>) returns (r: Result<seq<byte>>)
    requires ValidArgs(args)
    ensures r == if Sendable(args) then Ok(ExecutePayload(stmtID, args)) else Err(Malformed)
  {
    hide LittleEndian, Bitmap, Nulls, ValidArg, ArgRow, ParamTypes, ArgValues, TypeBytes;
    var payload := [0x17] + LittleEndian(stmtID, 4) + [0] + LittleEndian(1, 4);
    assert payload == ExecuteHeader(stmtID) + [];
    if |args| > 0 {
      var sent := PutParams(args);
      if sent.Err? {
        return Err(sent.error);
      }
      var bitmap := WriteNullBitmap(args);
      payload := payload + bitmap[..];
      payload := payload + [1];
      payload := payload + sent.value.0;
      payload := payload + sent.value.1;
      assert payload == ExecuteHeader(stmtID) + (bitmap[..] + [1] + sent.value.0 + sent.value.1);
    }
    return Ok(payload);
  }

  /** The type slots and the values of the arguments. */
  method PutParams(args: seq<Arg>) returns (r: Result<(seq<byte>, seq<byte>)>)
    requires ValidArgs(args)
    ensures r == if Sendable(args) then Ok((TypeBytes(ParamTypes(args)), ArgValues(args))) else Err(Malformed)
  {
    hide PutValue, PutValues, Fits, TypeBytes, ParamType, ArgRow, ParamTypes, ValidRow;
    var types := new byte[2 * |args|];
    var values: seq<byte> := [];
    ghost var ptypes := ParamTypes(args);
    TypeBytesStep(ptypes, 0);
    ArgRowValid(args);
    for i := 0 to |args|
      invariant Sendable(args[..i])
      invariant types[..2 * i] == TypeBytes(ptypes[..i])
      invariant values + ValuesFrom(args, i) == ArgValues(args)
    {
      NextArg(args, i);
      TypeBytesStep(ptypes, i);
      types[2 * i], types[2 * i + 1] := ParamType(args[i]), 0;
      if args[i].Other? {
        return Err(Malformed);
      }
      if args[i] != Nil {
        values := values + PutValue(ArgValue(args[i]).value, ParamType(args[i]));
      }
    }
    assert args[..|args|] == args && ptypes[..|args|] == ptypes;
    NextArg(args, |args|);
    assert values + [] == values;
    assert types[..] == types[..2 * |args|];
    return Ok((types[..], values));
  }

  /** The values of the arguments from `i` on. */
  function ValuesFrom(args: seq<Arg>, i: nat): (s: seq<byte>)
    requires ValidArgs(args) && i <= |args|
  {
    ArgRowValid(args);
    PutValues(ArgRow(args)[i..], ParamTypes(args)[i..])
  }

  lemma {:induction false} NextArg(args: seq<Arg>, i: nat)
    requires ValidArgs(args) && i <= |args|
    ensures i == |args| ==> ValuesFrom(args, i) == []
    ensures i < |args| ==>
              && ValidArg(args[i]) && ParamTypes(args)[i] == ParamType(args[i])
              && ValuesFrom(args, i) ==
                 (if ArgValue(args[i]).Some? then PutValue(ArgValue(args[i]).value, ParamType(args[i])) else [])
                 + ValuesFrom(args, i + 1)
    ensures ValuesFrom(args, 0) == ArgValues(args)
  {
    hide PutValue, Fits;
    ArgRowValid(args);
    var row, types := ArgRow(args), ParamTypes(args);
    assert row[0..] == row && types[0..] == types;
    if i < |args| {
      assert row[i..][1..] == row[i + 1..] && types[i..][1..] == types[i + 1..];
    }
  }

  lemma {:induction false} TypeBytesStep(types: seq<byte>, i: nat)
    requires i <= |types|
    ensures i < |types| ==> TypeBytes(types[..i + 1]) == TypeBytes(types[..i]) + [types[i], 0]
    ensures TypeBytes(types[..0]) == []
  {
  }

  lemma {:induction false} ParamsRoundTrip(args: seq<Arg>)
    requires Sendable(args) && ValidArgs(args)
    ensures DecodeParams(Bitmap(Nulls(ArgRow(args)), 0) + [1] + TypeBytes(ParamTypes(args)) + ArgValues(args), |args|)
            == Some(Row(RowOnWire(ArgRow(args))))
  {
    hide Bitmap, Nulls, PutValues, ParseValues, Fits, TypeBytes, EveryOther, ArgRow, ParamTypes, RowOnWire;
    var n, m := |args|, BitmapLen(|args|, 0);
    var row, types, bitmap := ArgRow(args), ParamTypes(args), Bitmap(Nulls(ArgRow(args)), 0);
    var slots, values := TypeBytes(types), ArgValues(args);
    var s := bitmap + [1] + slots + values;
    assert s[..m] == bitmap && s[m + 1..m + 1 + 2 * n] == slots && s[m + 1 + 2 * n..] == values;
    EveryOtherType(types);
    ArgRowValid(args);
    ValuesRoundTrip(row, types, 0, bitmap, 0, [], Nowhere);
    ArgsDelivered(args);
    assert row[0..] == row && types[0..] == types && values + [] == values;
  }

  lemma {:induction false} EveryOtherType(types: seq<byte>)
    ensures EveryOther(TypeBytes(types)) == types
  {
  }

  lemma {:induction false} OneIteration()
    ensures LittleEndian(1, 4) == [1, 0, 0, 0]
  {
    assert LittleEndian(0, 2) == [0, 0] && LittleEndian(0, 3) == [0] + LittleEndian(0, 2);
    assert LittleEndian(1, 4) == [1] + LittleEndian(0, 3);
  }

  /** Every argument can be recovered from the payload, NULL from its bit and the others from type and bytes. */
  lemma {:induction false} ExecuteRoundTrip(stmtID: nat, args: seq<Arg>)
    requires stmtID < 0x1_0000_0000 && Sendable(args) && ValidArgs(args)
    ensures DecodeExecute(ExecutePayload(stmtID, args), |args|) == Some((stmtID, Row(RowOnWire(ArgRow(args)))))
  {
    hide LittleEndian, Value, Bitmap, Nulls, DecodeParams, Radix, ArgValues, TypeBytes, ArgRow;
    RadixValues();
    ValueOfLittleEndian(stmtID, 4);
    OneIteration();
    var s := ExecutePayload(stmtID, args);
    assert s[1..5] == LittleEndian(stmtID, 4) && s[6..10] == LittleEndian(1, 4);
    if args != [] {
      ParamsRoundTrip(args);
      assert s[10..] == Bitmap(Nulls(ArgRow(args)), 0) + [1] + TypeBytes(ParamTypes(args)) + ArgValues(args);
    }
  }

  // ---- byte by byte ----

  /** Integers and floating-point numbers of every type. */
  lemma {:induction false} NumberBytes(loc: OracleTime.Location)
    ensures ParseValue([0xff], 0x01, loc) == Read(Integer(-1), 1)
    ensures ParseValue([0xfe, 0xff], 0x02, loc) == ParseValue([0xfe, 0xff], 0x0d, loc) == Read(Integer(-2), 2)
    ensures ParseValue([1, 2, 0, 0], 0x03, loc) == ParseValue([1, 2, 0, 0], 0x09, loc) == Read(Integer(513), 4)
    ensures ParseValue([3, 0, 0, 0, 0, 0, 0, 0], 0x08, loc) == Read(Integer(3), 8)
    ensures ParseValue([1, 2, 3, 4], 0x04, loc) == Read(Floating([1, 2, 3, 4]), 4)
    ensures ParseValue([1, 2, 3, 4, 5, 6, 7, 8], 0x05, loc) == Read(Floating([1, 2, 3, 4, 5, 6, 7, 8]), 8)
  {
    hide Value, Radix;
    RadixValues();
    ByteValues();
    assert [0xff][..1] == [0xff] && [0xfe, 0xff][..2] == [0xfe, 0xff] && [1, 2, 0, 0][..4] == [1, 2, 0, 0];
    assert [3, 0, 0, 0, 0, 0, 0, 0][..8] == [3, 0, 0, 0, 0, 0, 0, 0];
    assert [1, 2, 3, 4][..4] == [1, 2, 3, 4] && [1, 2, 3, 4, 5, 6, 7, 8][..8] == [1, 2, 3, 4, 5, 6, 7, 8];
  }

  lemma {:induction false} ByteValues()
    ensures Value([0xff]) == 0xff && Value([0xfe, 0xff]) == 0xfffe && Value([1, 2, 0, 0]) == 513
    ensures Value([3, 0, 0, 0, 0, 0, 0, 0]) == 3
  {
    ZeroValues();
    ValueCons(0xff, []);
    ValueCons(0xfe, [0xff]);
    ValueCons(2, [0, 0]);
    ValueCons(1, [2, 0, 0]);
    ValueCons(3, [0, 0, 0, 0, 0, 0, 0]);
    assert [1] + [2, 0, 0] == [1, 2, 0, 0] && [2] + [0, 0] == [2, 0, 0] && [0xfe] + [0xff] == [0xfe, 0xff];
    assert [3] + [0, 0, 0, 0, 0, 0, 0] == [3, 0, 0, 0, 0, 0, 0, 0] && [0xff] + [] == [0xff];
  }

  lemma {:induction false} ValueCons(b: byte, s: seq<byte>)
    ensures Value([b] + s) == b as int + 256 * Value(s)
  {
    assert ([b] + s)[1..] == s;
  }

  lemma {:induction false} ZeroValues()
    ensures Value([]) == 0 && Value([0, 0]) == 0 && Value([0, 0, 0, 0, 0, 0, 0]) == 0
  {
    ZerosValue([0, 0]);
    ZerosValue([0, 0, 0, 0, 0, 0, 0]);
  }

  lemma {:induction false} ZerosValue(s: seq<byte>)
    requires forall i :: 0 <= i < |s| ==> s[i] == 0
    ensures Value(s) == 0
  {
    if s != [] {
      ZerosValue(s[1..]);
    }
  }

  /** Which types are times, which are strings, and which are not supported. */
  lemma {:induction false} TypeCodes(typ: byte, loc: OracleTime.Location)
    ensures ParseValue([0], typ, loc) == Read(ZeroTime, 1) <==> typ in {0x07, 0x0a, 0x0c}
    ensures ParseValue([1, 65], typ, loc) == Read(Chars([65]), 2)
            <==> typ in {0x00, 0x0f, 0xcb, 0xcc, 0xcd, 0xce, 0xcf, 0xd0, 0xd1, 0xd2, 0xd3, 0xf6, 0xf9, 0xfa, 0xfb, 0xfc, 0xfd,
                         0xfe}
    ensures LayoutOf(typ) == Unsupported
            <==> typ in {0x06, 0x0b, 0x0e} || 0x10 <= typ <= 0xc7 || 0xd4 <= typ <= 0xf5 || 0xf7 <= typ <= 0xf8 || typ == 0xff
    ensures LayoutOf(typ) == Stamped <==> 0xc8 <= typ <= 0xca
  {
    hide Value, OracleTime.ParseOracleTime;
    ShortString();
  }

  lemma {:induction false} ShortString()
    ensures ReadString([1, 65]) == Str([65], 2) && ReadString([0]) == Str([], 1)
  {
    hide Value;
    assert [1, 65][1..2] == [65] && [0][1..1] == [];
  }

  /** A payload with three arguments: true, NULL and the string A. */
  lemma {:induction false} ThreeArguments()
    ensures var args := [Bool(true), Nil, Text([65])];
            && Bitmap(Nulls(ArgRow(args)), 0) == [2]
            && TypeBytes(ParamTypes(args)) == [0x01, 0, 0x06, 0, 0xfd, 0]
  {
    hide Bitmap, Pack;
    var args := [Bool(true), Nil, Text([65])];
    NullByte(Nulls(ArgRow(args)));
  }

  /** The head of a payload for statement 7, the bytes of true and false, and the type codes of the other arguments. */
  lemma {:induction false} ExecuteBytes()
    ensures ExecuteHeader(7) == [0x17, 7, 0, 0, 0, 0, 1, 0, 0, 0]
    ensures PutValue(ArgValue(Bool(true)).value, 0x01) == [1] && PutValue(ArgValue(Bool(false)).value, 0x01) == [0]
    ensures ParamType(Int64(0)) == 0x08 && ParamType(Float64([])) == 0x05 && ParamType(Blob([])) == 0xfd
            && ParamType(Instant(ZeroTime)) == 0x0c
  {
    OneIteration();
    SevenBytes();
    TrueByte();
  }

  lemma {:induction false} SevenBytes()
    ensures LittleEndian(7, 4) == [7, 0, 0, 0]
  {
    assert LittleEndian(0, 2) == [0, 0] && LittleEndian(0, 3) == [0] + LittleEndian(0, 2);
    assert LittleEndian(7, 4) == [7] + LittleEndian(0, 3);
  }

  lemma {:induction false} TrueByte()
    ensures 0 <= 1 + Radix(1) && 1 < Radix(1) && SignedBytes(1, 1) == [1] && SignedBytes(0, 1) == [0]
  {
    RadixValues();
    assert LittleEndian(1, 1) == [1] + LittleEndian(0, 0) && LittleEndian(0, 1) == [0] + LittleEndian(0, 0);
  }

  lemma {:induction false} NullByte(nulls: Bits)
    requires nulls == [false, true, false]
    ensures Bitmap(nulls, 0) == [2]
  {
    var r := Checkered(nulls, 0);
    assert r == [false, true, false, false, false, false, false, false];
    assert r[..8] == r && r[8..] == [];
    assert IntOf([]) == 0 && IntOf([false]) == 0 && [false][1..] == [];
    ZeroBits([false, false, false, false, false, false]);
    assert r[1..][1..] == [false, false, false, false, false, false];
    assert IntOf(r[1..]) == 1 && IntOf(r) == 2;
    assert Pack(r) == [2] + Pack([]);
  }

  lemma {:induction false} ZeroBits(r: Bits)
    requires forall i :: 0 <= i < |r| ==> !r[i]
    ensures IntOf(r) == 0
  {
    if r != [] {
      ZeroBits(r[1..]);
    }
  }
}
