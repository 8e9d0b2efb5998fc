/**
 The session time zone of an Oracle tenant: the driver mirrors the server's zone so that it can decode timestamps with
 local time zone, and retires the connection whenever it cannot tell what the server's zone has become.
 */
module SessionZones {
  import opened Bytes
  import opened SqlText
  import opened TimeZoneSql
  import opened TimeZoneStatements

  // ---- parsing a zone ----

  /** A fixed offset in seconds, and its canonical text. */
  datatype Zone = Zone(offset: int, canonical: string)

  predicate IsDigit(c: char) {
    '0' <= c <= '9'
  }

  function TwoDigits(s: string): (n: nat)
    requires |s| == 2 && IsDigit(s[0]) && IsDigit(s[1])
    ensures n <= 99
  {
    10 * (s[0] - '0') as int + (s[1] - '0') as int
  }

  function DigitText(n: nat): (s: string)
    requires n <= 99
    ensures |s| == 2 && IsDigit(s[0]) && IsDigit(s[1]) && TwoDigits(s) == n
  {
    [(n / 10) as char + '0', (n % 10) as char + '0']
  }

  function ParseZone(value: string): (r: Option<Zone>)
  {
    var v := Trim(value);
    if Upper(v) == "UTC" || Upper(v) == "Z" then Some(Zone(0, "+00:00"))
    else if |v| == 6 && (v[0] == '+' || v[0] == '-') && v[3] == ':' then
      if !IsDigit(v[1]) || !IsDigit(v[2]) || !IsDigit(v[4]) || !IsDigit(v[5]) then None
      else
        var hour, minute := TwoDigits(v[1..3]), TwoDigits(v[4..6]);
        if minute > 59 then None
        else if v[0] == '+' && (hour > 13 || (hour == 13 && minute != 0)) then None
        else if v[0] == '-' && hour > 12 then None
        else
          var offset := hour * 3600 + minute * 60;
          Some(Zone(if v[0] == '-' then -offset else offset, [v[0]] + DigitText(hour) + ":" + DigitText(minute)))
    else None
  }

  /** The text of an offset of whole minutes. */
  function OffsetText(minutes: int): (s: string)
    requires -(12 * 60 + 59) <= minutes <= 13 * 60
  {
    var m := if minutes < 0 then -minutes else minutes;
    [if minutes < 0 then '-' else '+'] + DigitText(m / 60) + ":" + DigitText(m % 60)
  }

  lemma {:induction false} TightTrim(s: string)
    requires Tight(s)
    ensures Trim(s) == s
  {
    TrimTight("", s, "");
    assert "" + s + "" == s;
  }

  lemma {:induction false} NotUtc(s: string)
    requires |s| == 6
    ensures Upper(s) != "UTC" && Upper(s) != "Z"
  {
  }

  /** Every offset from -12:59 to +13:00 has a text that parses to it and is its own canonical form. */
  lemma {:induction false} OffsetParses(minutes: int)
    requires -(12 * 60 + 59) <= minutes <= 13 * 60
    ensures ParseZone(OffsetText(minutes)) == Some(Zone(minutes * 60, OffsetText(minutes)))
  {
    hide Trim, Upper, DigitText;
    var s := OffsetText(minutes);
    var m := if minutes < 0 then -minutes else minutes;
    TightTrim(s);
    NotUtc(s);
    assert s[1..3] == DigitText(m / 60) && s[4..6] == DigitText(m % 60);
    assert [s[0]] + DigitText(m / 60) + ":" + DigitText(m % 60) == s;
  }

  /** Conversely whatever parses is such an offset, and its canonical text is that of the offset, or -00:00. */
  lemma {:induction false} ParsedZone(value: string)
    requires ParseZone(value).Some?
    ensures var z := ParseZone(value).value;
            && z.offset % 60 == 0 && -(12 * 60 + 59) <= z.offset / 60 <= 13 * 60
            && (z.canonical == OffsetText(z.offset / 60) || (z == Zone(0, "-00:00")))
  {
    hide Trim, Upper, DigitText;
    var v := Trim(value);
    ZeroText();
    if Upper(v) != "UTC" && Upper(v) != "Z" {
      var hour, minute := TwoDigits(v[1..3]), TwoDigits(v[4..6]);
      var m := hour * 60 + minute;
      assert m / 60 == hour && m % 60 == minute;
    }
  }

  lemma {:induction false} ZeroText()
    ensures DigitText(0) == "00" && OffsetText(0) == "+00:00"
    ensures "-" + DigitText(0) + ":" + DigitText(0) == "-00:00"
  {
  }

  lemma {:induction false} NegativeZero()
    ensures ParseZone("-00:00") == Some(Zone(0, "-00:00"))
  {
    hide Trim, Upper, DigitText;
    var s := "-00:00";
    TightTrim(s);
    NotUtc(s);
    ZeroText();
    assert s[1..3] == "00" && s[4..6] == "00";
    assert TwoDigits("00") == 0;
  }

  /** The canonical text stands for the same zone. */
  lemma {:induction false} CanonicalParses(value: string)
    requires ParseZone(value).Some?
    ensures ParseZone(ParseZone(value).value.canonical) == ParseZone(value)
  {
    hide ParseZone, OffsetText;
    ParsedZone(value);
    var z := ParseZone(value).value;
    OffsetParses(z.offset / 60);
    NegativeZero();
  }

  // ---- the driver's own statement ----

  function SessionTimeZoneSQL(canonical: string): (q: string) {
    "ALTER SESSION SET TIME_ZONE = '" + canonical + "'"
  }

  /** The statement the driver sends is one the recogniser reads back, for any text without quotes. */
  lemma {:induction false} OwnStatementRecognised(canonical: string)
    requires forall i :: 0 <= i < |canonical| ==> canonical[i] != '\''
    ensures Recognise(SessionTimeZoneSQL(canonical)) == Some(Literal(canonical))
  {
    hide Recognise, Text, ValidStatement;
    var st := OwnStatement(canonical);
    OwnStatementValid(canonical);
    OwnStatementText(canonical);
    StatementRecognised(st, NoClose);
  }

  const NoClose: Close := Close(false, [], NoComment)

  function OwnStatement(canonical: string): Statement {
    Statement([], ["ALTER", "SESSION", "SET", "TIME_ZONE"], [[Space(' ')], [Space(' ')], [Space(' ')], [Space(' ')]],
              [Space(' ')], Quoted(canonical, '\''), [])
  }

  lemma {:induction false} OwnWords()
    ensures IsWord("ALTER") && IsWord("SESSION") && IsWord("SET") && IsWord("TIME_ZONE")
  {
  }

  lemma {:induction false} OwnStatementValid(canonical: string)
    ensures ValidStatement(OwnStatement(canonical))
  {
    hide Upper, JoinWords, IsWord;
    OwnWords();
    assert Spelled(OwnStatement(canonical).words, HeadWords[0]);
  }

  lemma {:induction false} SpreadStep(w: string, words: seq<string>, gaps: seq<Gap>)
    requires |words| == |gaps|
    ensures Spread([w] + words, [[Space(' ')]] + gaps) == w + " " + Spread(words, gaps)
  {
    var g := [Space(' ')];
    assert g[1..] == [];
    assert GapText(g) == " ";
    assert ([w] + words)[1..] == words && ([g] + gaps)[1..] == gaps;
  }

  lemma {:induction false} FourSpread(a: string, b: string, c: string, d: string)
    ensures var g := [Space(' ')];
            Spread([a, b, c, d], [g, g, g, g]) == a + " " + (b + " " + (c + " " + (d + " ")))
  {
    hide Spread, GapText;
    var g := [Space(' ')];
    SpreadStep(d, [], []);
    SpreadStep(c, [d], [g]);
    SpreadStep(b, [c, d], [g, g]);
    SpreadStep(a, [b, c, d], [g, g, g]);
    SpreadNothing();
    assert [d] + [] == [d] && [g] + [] == [g] && d + " " + "" == d + " ";
    assert [c] + [d] == [c, d] && [g] + [g] == [g, g];
    assert [b] + [c, d] == [b, c, d] && [g] + [g, g] == [g, g, g];
    assert [a] + [b, c, d] == [a, b, c, d] && [g] + [g, g, g] == [g, g, g, g];
  }

  lemma {:induction false} OwnSpread()
    ensures var g := [Space(' ')];
            Spread(["ALTER", "SESSION", "SET", "TIME_ZONE"], [g, g, g, g]) == "ALTER SESSION SET TIME_ZONE "
  {
    hide Spread;
    FourSpread("ALTER", "SESSION", "SET", "TIME_ZONE");
    assert "ALTER" + " " + ("SESSION" + " " + ("SET" + " " + ("TIME_ZONE" + " "))) == "ALTER SESSION SET TIME_ZONE ";
  }

  lemma {:induction false} SpreadNothing()
    ensures Spread([], []) == ""
  {
  }

  lemma {:induction false} OneSpace()
    ensures GapText([]) == "" && GapText([Space(' ')]) == " "
  {
    assert [Space(' ')][1..] == [];
    assert GapText([]) == "";
  }

  lemma {:induction false} OwnStatementText(canonical: string)
    requires forall i :: 0 <= i < |canonical| ==> canonical[i] != '\''
    ensures Text(OwnStatement(canonical), NoClose) == SessionTimeZoneSQL(canonical)
  {
    hide Double, Spread, GapText;
    NothingDoubled(canonical, '\'');
    OwnSpread();
    OneSpace();
    var head := "ALTER SESSION SET TIME_ZONE ";
    assert head + "= '" == "ALTER SESSION SET TIME_ZONE = '";
    StatementParts(head, canonical);
  }

  /** The statement in small letters. */
  function LowerStatement(value: string): Statement {
    OwnStatement(value).(words := ["alter", "session", "set", "time_zone"])
  }

  lemma {:induction false} LowerWords()
    ensures var w := ["alter", "session", "set", "time_zone"]; Spelled(w, HeadWords[0]) && forall i :: 0 <= i < 4 ==> IsWord(w[i])
  {
    LowerWord();
  }

  lemma {:induction false} LowerWord()
    ensures CaseVariant("alter", "ALTER") && CaseVariant("session", "SESSION") && CaseVariant("set", "SET")
    ensures CaseVariant("time_zone", "TIME_ZONE")
  {
  }

  lemma {:induction false} LowerValid(value: string)
    ensures ValidStatement(LowerStatement(value))
  {
    hide Upper, JoinWords, IsWord, Spelled;
    LowerWords();
  }

  lemma {:induction false} LowerText(value: string)
    requires forall i :: 0 <= i < |value| ==> value[i] != '\''
    ensures Text(LowerStatement(value), NoClose) == "alter session set time_zone = '" + value + "'"
  {
    hide Double, Spread, GapText;
    NothingDoubled(value, '\'');
    LowerSpread();
    OneSpace();
    var head := "alter session set time_zone ";
    assert head + "= '" == "alter session set time_zone = '";
    StatementParts(head, value);
  }

  lemma {:induction false} LowerSpread()
    ensures var g := [Space(' ')];
            Spread(["alter", "session", "set", "time_zone"], [g, g, g, g]) == "alter session set time_zone "
  {
    hide Spread;
    FourSpread("alter", "session", "set", "time_zone");
    assert "alter" + " " + ("session" + " " + ("set" + " " + ("time_zone" + " "))) == "alter session set time_zone ";
  }

  lemma {:induction false} StatementParts(head: string, value: string)
    ensures "" + (head + ("=" + (" " + (['\''] + value + ['\''] + "")))) + "" == head + "= '" + value + "'"
  {
    assert head + "= '" == head + "=" + " " + "'";
  }

  /** A statement in small letters is recognised, and taken for a time-zone statement. */
  lemma {:induction false} LowerRecognised(value: string)
    requires forall i :: 0 <= i < |value| ==> value[i] != '\''
    ensures var query := "alter session set time_zone = '" + value + "'";
            Recognise(query) == Some(Literal(value)) && IsMutation(query)
  {
    hide Recognise, IsMutation, Text, ValidStatement, LowerStatement;
    LowerValid(value);
    LowerText(value);
    StatementRecognised(LowerStatement(value), NoClose);
    LowerOperand(value);
    RecognisedIsMutation("alter session set time_zone = '" + value + "'");
  }

  lemma {:induction false} LowerOperand(value: string)
    ensures LowerStatement(value).operand == Quoted(value, '\'') && ValidClose(NoClose)
  {
  }

  /** UTC and Z in any letter case, with blanks around them, are offset zero. */
  lemma {:induction false} NamesParse(value: string)
    requires CaseVariant(Trim(value), "UTC") || CaseVariant(Trim(value), "Z")
    ensures ParseZone(value) == Some(Zone(0, "+00:00"))
  {
    hide Trim, Upper;
    if CaseVariant(Trim(value), "UTC") {
      VariantUpper(Trim(value), "UTC");
    } else {
      VariantUpper(Trim(value), "Z");
    }
  }

  lemma {:induction false} NothingDoubled(s: string, quote: char)
    requires forall i :: 0 <= i < |s| ==> s[i] != quote
    ensures Double(s, quote) == s
  {
    if s != "" {
      NothingDoubled(s[1..], quote);
    }
  }

  // ---- following the server's zone ----

  /** The server's session zone: an offset, or a region that the driver cannot decode with. */
  datatype ServerZone = Fixed(offset: int) | Region(name: string)

  /** A statement argument as far as the zone is concerned. */
  datatype Arg = TextArg(s: string) | OtherArg

  /**
   How a query was answered, and the server's zone afterwards: without an error, with one (but a query may hold several
   statements, of which the first were executed), or not at all.
   */
  datatype Reply = Accepted(after: ServerZone) | Rejected(after: ServerZone) | Lost

  /** The mirror, the bad flag, the transaction flag and the server's zone. */
  datatype Session = Session(location: Option<int>, bad: bool, inTx: bool, server: ServerZone)

  /** The zone text a recognised assignment assigns. */
  function AssignedText(a: Assignment, args: seq<Arg>): (r: Option<string>) {
    match a
    case Literal(value) => Some(value)
    case Parameter => if |args| == 1 && args[0].TextArg? then Some(args[0].s) else None
  }

  /**
   The server's zone is what the driver concludes from the query and the reply; what a zone statement that the driver
   cannot read does to it is left open, because the connection is retired then.
   */
  predicate ServerAllows(before: ServerZone, query: string, args: seq<Arg>, reply: Reply) {
    match reply
    case Lost => true
    case Rejected(after) => after == before
    case Accepted(after) =>
      match ReadZone(query, args)
      case Unchanged => after == before
      case Known(z) => after == Fixed(z.offset)
      case Unknown => true
  }

  datatype ZoneEffect = Unchanged | Known(zone: Zone) | Unknown

  /** What an accepted statement does to the zone, as far as the driver can tell. */
  function ReadZone(query: string, args: seq<Arg>): (r: ZoneEffect)
  {
    match Recognise(query)
    case None => if IsMutation(query) then Unknown else Unchanged
    case Some(a) =>
      match AssignedText(a, args)
      case None => Unknown
      case Some(text) =>
        match ParseZone(text)
        case None => Unknown
        case Some(z) => Known(z)
  }

  /** A usable session mirrors the server. */
  predicate Mirrors(s: Session) {
    s.bad || (s.location.Some? && s.server == Fixed(s.location.value))
  }

  // ---- steps ----

  function AfterUpdate(s: Session, query: string, args: seq<Arg>): Session {
    match ReadZone(query, args)
    case Unchanged => s
    case Known(z) => s.(location := Some(z.offset))
    case Unknown => s.(location := None, bad := true)
  }

  function AfterStatement(s: Session, query: string, args: seq<Arg>, reply: Reply): Session {
    match reply
    case Rejected(after) => s.(server := after)
    case Lost => s.(bad := true)
    case Accepted(after) => AfterUpdate(s.(server := after), query, args)
  }

  /** Configuring sends the zone of the configuration and then records it. */
  function AfterConfigure(s: Session, zone: Zone, reply: Reply): (r: Session)
  {
    var t := AfterStatement(s, SessionTimeZoneSQL(zone.canonical), [], reply);
    if reply.Accepted? && !t.bad then t.(location := Some(zone.offset)) else t
  }

  /** Resetting first rolls back a transaction that is still open. */
  function AfterRollback(s: Session, rollback: Reply): (r: Session) {
    if s.inTx then AfterStatement(s, "rollback", [], rollback) else s
  }

  function AfterReset(s: Session, zone: Zone, rollback: Reply, configure: Reply): (r: Session)
  {
    if s.bad then s
    else
      var t := AfterRollback(s, rollback);
      if s.inTx && (!rollback.Accepted? || t.bad) then t.(bad := true)
      else
        var u := AfterConfigure(t.(inTx := false), zone, configure);
        if configure.Accepted? then u else u.(bad := true)
  }

  datatype Op =
    | Execute(query: string, args: seq<Arg>, reply: Reply)
    | Begin
    | Finish(query: string, reply: Reply)
    | Reset(rollback: Reply, configure: Reply)

  function Step(s: Session, op: Op, zone: Zone): Session {
    match op
    case Execute(query, args, reply) => if s.bad then s else AfterStatement(s, query, args, reply)
    case Begin => s.(inTx := true)
    case Finish(query, reply) =>
      if s.bad then s
      else
        var t := AfterStatement(s, query, [], reply);
        if reply.Accepted? && !t.bad then t.(inTx := false) else t
    case Reset(rollback, configure) => AfterReset(s, zone, rollback, configure)
  }

  predicate Allowed(s: Session, op: Op, zone: Zone) {
    match op
    case Execute(query, args, reply) => ServerAllows(s.server, query, args, reply)
    case Begin => true
    case Finish(query, reply) => ServerAllows(s.server, query, [], reply)
    case Reset(rollback, configure) =>
      && ServerAllows(s.server, "rollback", [], rollback)
      && ServerAllows(AfterRollback(s, rollback).server, SessionTimeZoneSQL(zone.canonical), [], configure)
  }

  /** After a statement the mirror is right exactly when the server did to its zone what the driver read. */
  lemma {:induction false} StatementMirrors(s: Session, query: string, args: seq<Arg>, reply: Reply)
    requires Mirrors(s) && !s.bad
    ensures Mirrors(AfterStatement(s, query, args, reply)) <==> ServerAllows(s.server, query, args, reply)
  {
    hide ReadZone;
  }

  /** The driver's own statement always leaves server and mirror at the configured zone. */
  lemma {:induction false} OwnEffect(value: string)
    requires ParseZone(value).Some?
    ensures var z := ParseZone(value).value; ReadZone(SessionTimeZoneSQL(z.canonical), []) == Known(z)
  {
    hide ParseZone, Recognise, SessionTimeZoneSQL, OffsetText;
    var z := ParseZone(value).value;
    CanonicalParses(value);
    CanonicalUnquoted(value);
    OwnStatementRecognised(z.canonical);
  }

  lemma {:induction false} CanonicalUnquoted(value: string)
    requires ParseZone(value).Some?
    ensures var t := ParseZone(value).value.canonical; forall i :: 0 <= i < |t| ==> t[i] != '\''
  {
    hide Trim, Upper;
  }

  lemma {:induction false} ConfigureMirrors(s: Session, value: string, reply: Reply)
    requires !s.bad && ParseZone(value).Some?
    requires var z := ParseZone(value).value; ServerAllows(s.server, SessionTimeZoneSQL(z.canonical), [], reply)
    ensures var z := ParseZone(value).value;
            var r := AfterConfigure(s, z, reply);
            && (reply.Accepted? ==> !r.bad && r.location == Some(z.offset) && r.server == Fixed(z.offset))
            && (reply.Rejected? ==> r == s) && (reply.Lost? ==> r.bad)
  {
    hide ReadZone, ParseZone, SessionTimeZoneSQL;
    OwnEffect(value);
  }

  lemma {:induction false} StepMirrors(s: Session, op: Op, value: string)
    requires ParseZone(value).Some?
    requires Mirrors(s) && Allowed(s, op, ParseZone(value).value)
    ensures Mirrors(Step(s, op, ParseZone(value).value))
  {
    hide AfterStatement, AfterConfigure, ServerAllows, ParseZone, SessionTimeZoneSQL;
    var zone := ParseZone(value).value;
    if !s.bad {
      match op {
        case Execute(query, args, reply) => StatementMirrors(s, query, args, reply);
        case Begin =>
        case Finish(query, reply) => StatementMirrors(s, query, [], reply);
        case Reset(rollback, configure) =>
          if s.inTx {
            StatementMirrors(s, "rollback", [], rollback);
          }
          var t := AfterRollback(s, rollback).(inTx := false);
          if !t.bad {
            ConfigureMirrors(t, value, configure);
          }
      }
    }
  }
}
