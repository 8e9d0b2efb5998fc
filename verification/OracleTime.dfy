/** Oracle timestamp payloads: a wall clock, and for TIMESTAMP WITH TIME ZONE an offset and two names. */
module OracleTime {
  import opened Bytes
  import opened Calendar
  import opened ZoneInverse

  const TimestampTZ: byte := 0xc8
  const TimestampLTZ: byte := 0xc9
  const TimestampNano: byte := 0xca

  const NanosPerMinute: int := 60_000_000_000

  /** int8(b), widened. */
  function Int8(b: byte): (i: int)
    ensures -128 <= i < 128
  {
    if b >= 128 then b - 256 else b
  }

  function Abs(i: int): int {
    if i < 0 then -i else i
  }

  /** oracleTimestampYear: both bytes are signed, and either sign makes the year negative. */
  function Year(century: byte, year: byte): int {
    var c, y := Int8(century), Int8(year);
    (if c < 0 || y < 0 then -1 else 1) * (Abs(c) * 100 + Abs(y))
  }

  /** The offset in minutes that the two signed zone bytes spell. */
  function ZoneMinutes(h: byte, m: byte): Result<int> {
    var hour, minute := Int8(h), Int8(m);
    if minute < -59 || minute > 59 then Err(Malformed)
    else if hour != 0 && minute != 0 && (hour < 0) != (minute < 0) then Err(Malformed)
    else
      var offset := (if hour < 0 || minute < 0 then -1 else 1) * (Abs(hour) * 60 + Abs(minute));
      if offset < -(12 * 60 + 59) || offset > 14 * 60 then Err(Malformed) else Ok(offset)
  }

  /** parseOracleTimeZone: the offset, then a name and an abbreviation that must end with the payload. */
  function ParseZone(data: seq<byte>): Result<int> {
    if |data| < 14 then Err(UnexpectedEOF)
    else
      match ZoneMinutes(data[12], data[13])
      case Err(e) => Err(e)
      case Ok(offset) =>
        if |data| < 15 then Err(UnexpectedEOF)
        else
          var nameLength: int := data[14];
          var nameEnd := 15 + nameLength;
          if |data| < nameEnd + 1 then Err(UnexpectedEOF)
          else
            var end := nameEnd + 1 + data[nameEnd];
            if |data| < end then Err(UnexpectedEOF)
            else if |data| != end then Err(Malformed)
            else Ok(offset)
  }

  /** The wall clock of a payload. */
  function ReadCivil(data: seq<byte>): (r: Result<Civil>)
    requires |data| >= 12
    ensures r.Ok? ==> ValidCivil(r.value)
  {
    var c := Civil(Year(data[0], data[1]), data[2], data[3], data[4], data[5], data[6], Value(data[7..11]));
    if c.year < 1 || c.year > 9999 then Err(Malformed)
    else if c.month < 1 || c.month > 12 then Err(Malformed)
    else if c.day < 1 || c.day > DaysInMonth(c.year, c.month) then Err(Malformed)
    else if c.hour > 23 || c.minute > 59 || c.second > 59 then Err(Malformed)
    else if c.nanosecond >= 1_000_000_000 then Err(Malformed)
    else if data[11] > 9 then Err(Malformed)
    else Ok(c)
  }

  /** The location that the wall clock is read in. */
  function LocationOf(data: seq<byte>, typ: byte, session: Option<Zone>): Result<Zone> {
    if typ == TimestampTZ then
      match ParseZone(data)
      case Err(e) => Err(e)
      case Ok(offset) => Ok(FixedZone(offset * NanosPerMinute))
    else if typ == TimestampLTZ then
      match session
      case None => Err(Malformed)
      case Some(z) => Ok(z)
    else Ok(FixedZone(0))
  }

  /** How the date constructor chooses an instant for a wall clock in a zone. */
  type Chooser = (Zone, int) -> int

  /** The constructor's promise: when some instant shows the wall clock, the choice does. */
  ghost predicate Honest(date: Chooser) {
    forall z, t :: Wall(z, date(z, Wall(z, t))) == Wall(z, t)
  }

  /** The session's zone, if it is known, and the constructor. */
  datatype Location = Location(session: Option<Zone>, date: Chooser)

  predicate IsOracleTime(typ: byte) {
    typ == TimestampTZ || typ == TimestampLTZ || typ == TimestampNano
  }

  function Locate(z: Zone, wall: int, date: Chooser): Result<int> {
    if Resolves(z, wall, date(z, wall)) then Ok(date(z, wall)) else Err(Malformed)
  }

  /** ParseOracleTime: the instant, in nanoseconds from the start of year 1 in UTC. */
  function ParseOracleTime(data: seq<byte>, typ: byte, session: Option<Zone>, date: Chooser): Result<int> {
    if !IsOracleTime(typ) then Err(Malformed)
    else if |data| < 12 then Err(UnexpectedEOF)
    else if typ != TimestampTZ && |data| != 12 then Err(Malformed)
    else
      match ReadCivil(data)
      case Err(e) => Err(e)
      case Ok(c) =>
        match LocationOf(data, typ, session)
        case Err(e) => Err(e)
        case Ok(z) => Locate(z, Nanos(c), date)
  }

  // ---- what the server sends ----

  predicate Representable(c: Civil, scale: int) {
    ValidCivil(c) && 1 <= c.year <= 9999 && 0 <= scale <= 9
  }

  function CivilBytes(c: Civil, scale: int): (s: seq<byte>)
    requires Representable(c, scale)
    ensures |s| == 12
  {
    DaysFitAByte(c.year, c.month);
    [c.year / 100, c.year % 100, c.month, c.day, c.hour, c.minute, c.second]
    + LittleEndian(c.nanosecond, 4) + [scale]
  }

  lemma {:induction false} DaysFitAByte(y: int, m: int)
    requires 1 <= m <= 12
    ensures DaysInMonth(y, m) <= 31
  {
    MonthLengths(y, m);
  }

  function ToByte(i: int): (b: byte)
    requires -128 <= i < 128
    ensures Int8(b) == i
  {
    if i < 0 then i + 256 else i
  }

  /** Hours and minutes of an offset carry its sign. */
  function ZoneBytes(offset: int): (s: seq<byte>)
    requires -779 <= offset <= 840
    ensures |s| == 2
  {
    if offset < 0 then [ToByte(-(-offset / 60)), ToByte(-(-offset % 60))] else [ToByte(offset / 60), ToByte(offset % 60)]
  }

  /** What follows the wall clock: the offset and two counted strings. */
  function ZoneSuffix(offset: int, name: seq<byte>, abbreviation: seq<byte>): (s: seq<byte>)
    requires -779 <= offset <= 840 && |name| < 256 && |abbreviation| < 256
    ensures |s| == 4 + |name| + |abbreviation|
    ensures s[..2] == ZoneBytes(offset) && s[2] == |name| && s[3 + |name|] == |abbreviation|
  {
    ZoneBytes(offset) + [|name|] + name + [|abbreviation|] + abbreviation
  }

  function ZonedBytes(c: Civil, scale: int, offset: int, name: seq<byte>, abbreviation: seq<byte>): (s: seq<byte>)
    requires Representable(c, scale) && -779 <= offset <= 840 && |name| < 256 && |abbreviation| < 256
  {
    CivilBytes(c, scale) + ZoneSuffix(offset, name, abbreviation)
  }

  // ---- decoding undoes it ----

  /** The two signed bytes of an accepted year are nonnegative and not both zero. */
  lemma {:induction false} YearAccepted(century: byte, year: byte)
    ensures 1 <= Year(century, year) <= 9999
            <==> Int8(century) >= 0 && Int8(year) >= 0 && 1 <= 100 * Int8(century) + Int8(year) <= 9999
    ensures Int8(century) >= 0 && Int8(year) >= 0 ==> Year(century, year) == 100 * Int8(century) + Int8(year)
  {
  }

  /** Accepted zone bytes and offsets from -12:59 to +14:00 correspond one to one. */
  lemma {:induction false} ZonePairs(h: byte, m: byte, offset: int)
    ensures ZoneMinutes(h, m) == Ok(offset) <==> -779 <= offset <= 840 && ZoneBytes(offset) == [h, m]
  {
    hide ToByte;
    if -779 <= offset <= 840 {
      var a := Abs(offset);
      assert 60 * (a / 60) + a % 60 == a;
      assert Int8(ZoneBytes(offset)[0]) == if offset < 0 then -(a / 60) else a / 60;
      assert Int8(ZoneBytes(offset)[1]) == if offset < 0 then -(a % 60) else a % 60;
    }
    if ZoneMinutes(h, m).Ok? && ZoneMinutes(h, m).value == offset {
      var a, b := Abs(Int8(h)), Abs(Int8(m));
      assert Abs(offset) == 60 * a + b;
      assert Abs(offset) / 60 == a && Abs(offset) % 60 == b;
    }
  }

  lemma {:induction false} CivilReads(c: Civil, scale: int, rest: seq<byte>)
    requires Representable(c, scale)
    ensures ReadCivil(CivilBytes(c, scale) + rest) == Ok(c)
  {
    hide LittleEndian, Value, DaysInMonth, Radix;
    var s := CivilBytes(c, scale) + rest;
    RadixValues();
    ValueOfLittleEndian(c.nanosecond, 4);
    assert s[7..11] == LittleEndian(c.nanosecond, 4);
    assert Year(s[0], s[1]) == c.year;
  }

  /**
   A wall clock is read exactly from its own bytes, but for the year: any two nonnegative bytes that make it up will do,
   so that the year of a century may exceed 99.
   */
  predicate Spells(data: seq<byte>, c: Civil)
    requires |data| >= 12
  {
    && Representable(c, data[11])
    && Int8(data[0]) >= 0 && Int8(data[1]) >= 0 && 100 * Int8(data[0]) + Int8(data[1]) == c.year
    && data[2..7] == [c.month, c.day, c.hour, c.minute, c.second]
    && data[7..11] == LittleEndian(c.nanosecond, 4)
  }

  lemma {:induction false} CivilExact(data: seq<byte>, c: Civil)
    requires |data| >= 12
    ensures ReadCivil(data) == Ok(c) <==> Spells(data, c)
  {
    hide LittleEndian, Value, DaysInMonth, Radix, Year;
    RadixValues();
    YearAccepted(data[0], data[1]);
    if c.nanosecond >= 0 {
      ValueOfLittleEndian(c.nanosecond, 4);
    }
    LittleEndianOfValue(data[7..11]);
    assert |data[7..11]| == 4;
    assert data[2..7] == [data[2], data[3], data[4], data[5], data[6]];
  }

  predicate EndsWithZone(data: seq<byte>, offset: int, name: seq<byte>, abbreviation: seq<byte>)
    requires |data| >= 12
  {
    && -779 <= offset <= 840 && |name| < 256 && |abbreviation| < 256
    && data[12..] == ZoneSuffix(offset, name, abbreviation)
  }

  lemma {:induction false} ZoneReads(data: seq<byte>, offset: int, name: seq<byte>, abbreviation: seq<byte>)
    requires |data| >= 12 && EndsWithZone(data, offset, name, abbreviation)
    ensures ParseZone(data) == Ok(offset)
  {
    hide ZoneMinutes, ZoneBytes, ZoneSuffix;
    var s := data[12..];
    assert data[12] == s[0] && data[13] == s[1] && data[14] == s[2] && data[15 + |name|] == s[3 + |name|];
    assert s[..2] == [s[0], s[1]];
    ZonePairs(s[0], s[1], offset);
  }

  /** The zone parser accepts what the printer writes, and nothing else: no truncation and no trailing byte. */
  lemma {:induction false} ZoneExact(data: seq<byte>, offset: int)
    requires |data| >= 12
    ensures ParseZone(data) == Ok(offset) <==> exists name, abbreviation :: EndsWithZone(data, offset, name, abbreviation)
  {
    hide ZoneMinutes, ZoneBytes;
    if ParseZone(data) == Ok(offset) {
      var nameLength: int := data[14];
      var nameEnd := 15 + nameLength;
      var name, abbreviation := data[15..nameEnd], data[nameEnd + 1..];
      ZonePairs(data[12], data[13], offset);
      assert data[12..] == ZoneSuffix(offset, name, abbreviation);
      assert EndsWithZone(data, offset, name, abbreviation);
    }
    if exists name, abbreviation :: EndsWithZone(data, offset, name, abbreviation) {
      var name, abbreviation :| EndsWithZone(data, offset, name, abbreviation);
      ZoneReads(data, offset, name, abbreviation);
    }
  }

  /** With an honest constructor, an instant is returned exactly when it alone shows the wall clock. */
  lemma {:induction false} LocateUnique(z: Zone, wall: int, date: Chooser, t: int)
    requires WellSpaced(z) && Honest(date)
    ensures Locate(z, wall, date) == Ok(t) <==> forall s :: Wall(z, s) == wall <==> s == t
  {
    hide WellSpaced, Resolves, Wall;
    ResolvesUnique(z, wall, date(z, wall));
    if forall s :: Wall(z, s) == wall <==> s == t {
      assert Wall(z, t) == wall;
    }
  }

  lemma {:induction false} LocateFixed(offset: int, wall: int, date: Chooser)
    requires Honest(date)
    ensures Locate(FixedZone(offset), wall, date) == Ok(wall - offset)
  {
    hide WellSpaced, OffsetAt, FixedZone, Honest, Locate;
    LocateUnique(FixedZone(offset), wall, date, wall - offset);
  }

  /** TIMESTAMP WITH TIME ZONE names the wall clock less the offset, whatever the names and the session are. */
  lemma {:induction false} ZonedInstant(c: Civil, scale: int, offset: int, name: seq<byte>, abbreviation: seq<byte>,
                                        session: Option<Zone>, date: Chooser)
    requires Representable(c, scale) && -779 <= offset <= 840 && |name| < 256 && |abbreviation| < 256 && Honest(date)
    ensures ParseOracleTime(ZonedBytes(c, scale, offset, name, abbreviation), TimestampTZ, session, date)
            == Ok(Nanos(c) - offset * NanosPerMinute)
  {
    hide Honest, CivilBytes, ReadCivil, ParseZone, ZoneSuffix, Nanos, FixedZone, Locate, ValidCivil;
    CivilReads(c, scale, ZoneSuffix(offset, name, abbreviation));
    ZoneReads(ZonedBytes(c, scale, offset, name, abbreviation), offset, name, abbreviation);
    LocateFixed(offset * NanosPerMinute, Nanos(c), date);
  }

  /** TIMESTAMP is read in UTC. */
  lemma {:induction false} PlainInstant(c: Civil, scale: int, session: Option<Zone>, date: Chooser)
    requires Representable(c, scale) && Honest(date)
    ensures ParseOracleTime(CivilBytes(c, scale), TimestampNano, session, date) == Ok(Nanos(c))
  {
    hide Honest, CivilBytes, ReadCivil, Nanos, FixedZone, Locate, ValidCivil;
    CivilReads(c, scale, []);
    assert CivilBytes(c, scale) + [] == CivilBytes(c, scale);
    LocateFixed(0, Nanos(c), date);
  }

  /** TIMESTAMP WITH LOCAL TIME ZONE is the only instant the session's clock shows it at, or an error. */
  lemma {:induction false} LocalInstant(c: Civil, scale: int, session: Option<Zone>, date: Chooser, t: int)
    requires Representable(c, scale) && Honest(date) && (session.Some? ==> WellSpaced(session.value))
    ensures ParseOracleTime(CivilBytes(c, scale), TimestampLTZ, session, date) == Ok(t)
            <==> session.Some? && forall s :: Wall(session.value, s) == Nanos(c) <==> s == t
  {
    hide Honest, CivilBytes, ReadCivil, Nanos, FixedZone, Locate, ValidCivil, WellSpaced, Wall;
    CivilReads(c, scale, []);
    assert CivilBytes(c, scale) + [] == CivilBytes(c, scale);
    if session.Some? {
      LocateUnique(session.value, Nanos(c), date, t);
    }
  }

  /** At one offset, decoded instants keep the strict order of the wall clocks. */
  lemma {:induction false} ZonedOrder(a: Civil, b: Civil, scale: int, offset: int, name: seq<byte>,
                                      abbreviation: seq<byte>, session: Option<Zone>, date: Chooser)
    requires Representable(a, scale) && Representable(b, scale) && Before(a, b)
    requires -779 <= offset <= 840 && |name| < 256 && |abbreviation| < 256 && Honest(date)
    ensures
      var x := ParseOracleTime(ZonedBytes(a, scale, offset, name, abbreviation), TimestampTZ, session, date);
      var y := ParseOracleTime(ZonedBytes(b, scale, offset, name, abbreviation), TimestampTZ, session, date);
      x.Ok? && y.Ok? && x.value < y.value
  {
    hide Honest, ParseOracleTime, ZonedBytes, Before, ValidCivil, Nanos;
    ZonedInstant(a, scale, offset, name, abbreviation, session, date);
    ZonedInstant(b, scale, offset, name, abbreviation, session, date);
    NanosIncrease(a, b);
  }

  /** Clocks that are as many minutes apart as the offset says, behind UTC or ahead of it. */
  predicate Shows(local: Civil, offset: int, utc: Civil) {
    if offset >= 0 then local == LaterBy(utc, offset) else utc == LaterBy(local, -offset)
  }

  /** A wall clock at an offset and the clock of UTC at the same moment decode to the same instant. */
  lemma {:induction false} SameInstant(local: Civil, utc: Civil, scale: int, offset: int, name: seq<byte>,
                                       abbreviation: seq<byte>, session: Option<Zone>, date: Chooser)
    requires Representable(local, scale) && Representable(utc, scale) && Shows(local, offset, utc)
    requires -779 <= offset <= 840 && |name| < 256 && |abbreviation| < 256 && Honest(date)
    ensures ParseOracleTime(ZonedBytes(local, scale, offset, name, abbreviation), 0xc8, session, date) ==
            ParseOracleTime(CivilBytes(utc, scale), 0xca, session, date) == Ok(Nanos(utc))
  {
    hide Honest, ParseOracleTime, ZonedBytes, CivilBytes, ValidCivil, Nanos, LaterBy;
    ZonedInstant(local, scale, offset, name, abbreviation, session, date);
    PlainInstant(utc, scale, session, date);
    if offset >= 0 {
      LaterCounts(utc, offset);
    } else {
      LaterCounts(local, -offset);
    }
  }

  /** In a session whose zone is an offset, the local kind of the same clock decodes to that instant too. */
  lemma {:induction false} SameLocally(local: Civil, utc: Civil, scale: int, offset: int, date: Chooser)
    requires Representable(local, scale) && Representable(utc, scale) && Shows(local, offset, utc) && Honest(date)
    ensures ParseOracleTime(CivilBytes(local, scale), 0xc9, Some(FixedZone(60_000_000_000 * offset)), date) == Ok(Nanos(utc))
  {
    hide Honest, CivilBytes, ReadCivil, Nanos, FixedZone, Locate, ValidCivil, LaterBy;
    CivilReads(local, scale, []);
    assert CivilBytes(local, scale) + [] == CivilBytes(local, scale);
    LocateFixed(60_000_000_000 * offset, Nanos(local), date);
    if offset >= 0 {
      LaterCounts(utc, offset);
    } else {
      LaterCounts(local, -offset);
    }
  }

  // ---- nothing else decodes ----

  /** The payload begins with a wall clock of this count. */
  ghost predicate Says(data: seq<byte>, wall: int)
    requires |data| >= 12
  {
    exists c :: Spells(data, c) && Nanos(c) == wall
  }

  /** The instant is the only one at which the zone shows the wall clock. */
  ghost predicate Alone(z: Zone, wall: int, t: int) {
    forall s :: Wall(z, s) == wall <==> s == t
  }

  lemma {:induction false} SaysExactly(data: seq<byte>, wall: int)
    requires |data| >= 12
    ensures Says(data, wall) <==> ReadCivil(data).Ok? && Nanos(ReadCivil(data).value) == wall
  {
    hide Spells, ReadCivil, Nanos;
    if ReadCivil(data).Ok? {
      CivilExact(data, ReadCivil(data).value);
    }
    forall c | Spells(data, c)
      ensures ReadCivil(data) == Ok(c)
    {
      CivilExact(data, c);
    }
  }

  lemma {:induction false} AloneFixed(offset: int, wall: int, t: int)
    ensures Alone(FixedZone(offset), wall, t) <==> wall == t + offset
  {
    hide FixedZone, OffsetAt;
    assert forall s :: Wall(FixedZone(offset), s) == s + offset;
    assert Wall(FixedZone(offset), wall - offset) == wall;
  }

  lemma {:induction false} FixedDecodes(data: seq<byte>, offset: int, date: Chooser, t: int)
    requires |data| >= 12 && Honest(date)
    ensures (ReadCivil(data).Ok? && Locate(FixedZone(offset), Nanos(ReadCivil(data).value), date) == Ok(t))
            <==> Says(data, t + offset)
  {
    hide Honest, Locate, ReadCivil, Wall, FixedZone, WellSpaced, Nanos, Says;
    SaysExactly(data, t + offset);
    if ReadCivil(data).Ok? {
      LocateFixed(offset, Nanos(ReadCivil(data).value), date);
    }
  }

  /** A TIMESTAMP decodes exactly from twelve bytes that spell a wall clock, to its count. */
  lemma {:induction false} PlainExact(data: seq<byte>, session: Option<Zone>, date: Chooser, t: int)
    requires Honest(date)
    ensures ParseOracleTime(data, 0xca, session, date) == Ok(t) <==> |data| == 12 && Says(data, t)
  {
    hide Honest, Locate, ReadCivil, FixedZone, Says, Nanos;
    if |data| == 12 {
      FixedDecodes(data, 0, date, t);
    }
  }

  ghost predicate EndsAt(data: seq<byte>, offset: int)
    requires |data| >= 12
  {
    exists name, abbreviation :: EndsWithZone(data, offset, name, abbreviation)
  }

  /** With time zone: exactly from a wall clock and a zone part, to the count less the offset. */
  lemma {:induction false} ZonedExact(data: seq<byte>, session: Option<Zone>, date: Chooser, t: int)
    requires Honest(date)
    ensures ParseOracleTime(data, 0xc8, session, date) == Ok(t)
            <==> |data| >= 12 && exists offset :: EndsAt(data, offset) && Says(data, t + 60_000_000_000 * offset)
  {
    hide Honest, Locate, ReadCivil, FixedZone, Says, Nanos, ParseZone, EndsAt;
    if |data| >= 12 {
      if ParseZone(data).Ok? {
        FixedDecodes(data, ParseZone(data).value * NanosPerMinute, date, t);
      }
      forall offset
        ensures EndsAt(data, offset) <==> ParseZone(data) == Ok(offset)
      {
        ZoneEnds(data, offset);
      }
    }
  }

  lemma {:induction false} ZoneEnds(data: seq<byte>, offset: int)
    requires |data| >= 12
    ensures EndsAt(data, offset) <==> ParseZone(data) == Ok(offset)
  {
    hide ParseZone, EndsWithZone;
    ZoneExact(data, offset);
  }

  lemma {:induction false} LocateAlone(z: Zone, wall: int, date: Chooser, t: int)
    requires WellSpaced(z) && Honest(date)
    ensures Locate(z, wall, date) == Ok(t) <==> Alone(z, wall, t)
  {
    hide WellSpaced, Honest, Locate, Wall;
    LocateUnique(z, wall, date, t);
  }

  /** With local time zone: exactly from twelve bytes whose wall clock the known session zone shows at one instant. */
  lemma {:induction false} LocalExact(data: seq<byte>, session: Option<Zone>, date: Chooser, t: int)
    requires Honest(date) && (session.Some? ==> WellSpaced(session.value))
    ensures ParseOracleTime(data, 0xc9, session, date) == Ok(t)
            <==> |data| == 12 && session.Some? && exists wall :: Says(data, wall) && Alone(session.value, wall, t)
  {
    hide Honest, Locate, ReadCivil, FixedZone, Says, Nanos, WellSpaced, Alone;
    if |data| == 12 && session.Some? {
      forall wall
        ensures Says(data, wall) <==> ReadCivil(data).Ok? && Nanos(ReadCivil(data).value) == wall
      {
        SaysExactly(data, wall);
      }
      if ReadCivil(data).Ok? {
        var wall := Nanos(ReadCivil(data).value);
        LocateAlone(session.value, wall, date, t);
        assert Says(data, wall);
      }
    }
  }

  /** No other type decodes. */
  lemma {:induction false} OtherTypes(data: seq<byte>, typ: byte, session: Option<Zone>, date: Chooser)
    requires typ != 0xc8 && typ != 0xc9 && typ != 0xca
    ensures ParseOracleTime(data, typ, session, date).Err?
  {
  }

  /** Whatever is decoded, of any type, shows the payload's wall clock in the location it is read in. */
  lemma {:induction false} DecodedWall(data: seq<byte>, typ: byte, session: Option<Zone>, date: Chooser)
    requires ParseOracleTime(data, typ, session, date).Ok?
    ensures |data| >= 12 && ReadCivil(data).Ok? && LocationOf(data, typ, session).Ok?
    ensures Wall(LocationOf(data, typ, session).value, ParseOracleTime(data, typ, session, date).value)
            == Nanos(ReadCivil(data).value)
  {
    hide ReadCivil, LocationOf, Nanos;
  }
}
