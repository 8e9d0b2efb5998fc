/**
 The response grammar of the protocol from both ends: what the driver's readers and drain loops do to any packet
 stream, and what they do to the responses a server sends. A response is a chain of OK packets and result sets in
 which every part but the last announces another one.
 */
module Responses {
  import opened Bytes
  import opened Lenenc
  import opened Terminators
  import opened TextRows

  type Packets = seq<seq<byte>>

  const MaxDrainRows: nat := 10000
  const MaxResultColumns: nat := 10000

  /** Capabilities fixed during the handshake. */
  datatype Mode = Mode(deprecateEOF: bool, track: bool)

  // ---- the driver's side ----

  /** The end of a part: another part follows, none does, the server reported an error, or the stream makes no sense. */
  datatype Outcome = More(rest: Packets) | Last(rest: Packets) | ServerErr(rest: Packets) | Broken

  /** An ERR packet, which needs at least the two bytes of its number to count as one. */
  function ErrOutcome(packet: seq<byte>, rest: Packets): Outcome {
    if |packet| >= 3 then ServerErr(rest) else Broken
  }

  function StatusOutcome(more: bool, rest: Packets): Outcome {
    if more then More(rest) else Last(rest)
  }

  function DrainRows(s: Packets, ok: bool, track: bool, budget: nat): (r: Outcome)
    ensures r.More? || r.Last? || r.ServerErr? ==> |r.rest| < |s|
    decreases budget
  {
    if budget == 0 || s == [] then Broken
    else if IsErr(s[0]) then ErrOutcome(s[0], s[1..])
    else if EndsRows(s[0], ok, track) then StatusOutcome(HasMoreResults(s[0], track), s[1..])
    else DrainRows(s[1..], ok, track, budget - 1)
  }

  /** The packet between column definitions and rows decides which kind of terminator ends the rows. */
  datatype MetaRead = Kind(ok: bool, rest: Packets) | MetaErr(rest: Packets) | MetaBroken

  function ReadMeta(s: Packets, mode: Mode): (r: MetaRead)
    ensures r.Kind? || r.MetaErr? ==> |r.rest| <= |s|
  {
    if mode.deprecateEOF then Kind(true, s)
    else if s == [] then MetaBroken
    else if IsErr(s[0]) then if |s[0]| >= 3 then MetaErr(s[1..]) else MetaBroken
    else if IsTerminator(s[0], mode.track) then Kind(IsResultSetOK(s[0], mode.track), s[1..])
    else MetaBroken
  }

  function DrainMeta(r: MetaRead, track: bool): Outcome {
    match r
    case MetaBroken => Broken
    case MetaErr(rest) => ServerErr(rest)
    case Kind(ok, rest) => DrainRows(rest, ok, track, MaxDrainRows)
  }

  function DrainSet(first: seq<byte>, s: Packets, mode: Mode): (r: Outcome)
    ensures r.More? || r.Last? || r.ServerErr? ==> |r.rest| <= |s|
  {
    match ReadInt(first)
    case BadInt(_) => Broken
    case Int(n, _, _) =>
      if n > MaxResultColumns || |s| < n then Broken else DrainMeta(ReadMeta(s[n..], mode), mode.track)
  }

  function DrainPart(first: seq<byte>, s: Packets, mode: Mode): (r: Outcome)
    ensures r.More? || r.Last? || r.ServerErr? ==> |r.rest| <= |s|
  {
    if first == [] then Broken
    else if first[0] == OKHeader then
      match HandleOK(first)
      case None => Broken
      case Some(info) => StatusOutcome(MoreResults(info.status), s)
    else if first[0] == ErrHeader then ErrOutcome(first, s)
    else DrainSet(first, s, mode)
  }

  /** The whole chain of which `first` is the first packet. */
  function DrainChain(first: seq<byte>, s: Packets, mode: Mode): (r: Outcome)
    ensures !r.More?
    decreases |s|
  {
    match DrainPart(first, s, mode)
    case More(rest) => if rest == [] then Broken else DrainChain(rest[0], rest[1..], mode)
    case r => r
  }

  function DrainRemaining(s: Packets, mode: Mode): (r: Outcome)
    ensures !r.More?
  {
    if s == [] then Broken else DrainChain(s[0], s[1..], mode)
  }

  // ---- column definitions ----

  datatype ColumnDef = ColumnDef(
    name: seq<byte>, charset: nat, columnLength: nat, typ: byte, flags: nat, decimals: byte)

  /** What follows `n` length-encoded strings. */
  function AfterStrings(s: seq<byte>, n: nat): (r: Option<seq<byte>>)
  {
    if n == 0 then Some(s)
    else
      match ReadString(s)
      case BadStr(_) => None
      case _ => AfterStrings(s[Skip(ReadString(s))..], n - 1)
  }

  function NameOf(r: StringRead): seq<byte> {
    if r.Str? then r.value else []
  }

  /** Four strings, the name, another string, and a fixed part of thirteen bytes. */
  function ParseColumn(packet: seq<byte>): (r: Option<ColumnDef>)
  {
    match AfterStrings(packet, 4)
    case None => None
    case Some(s) =>
      match AfterStrings(s, 2)
      case None => None
      case Some(f) =>
        if |f| < 13 then None
        else Some(ColumnDef(NameOf(ReadString(s)), Value(f[1..3]), Value(f[3..7]), f[7], Value(f[8..10]), f[10]))
  }

  predicate IsColumnDefinition(packet: seq<byte>) {
    ParseColumn(packet).Some?
  }

  function StringsBytes(ss: seq<seq<byte>>): (s: seq<byte>) {
    if ss == [] then [] else PutString(ss[0]) + StringsBytes(ss[1..])
  }

  /** A definition as a server sends it, with three words before and two after its name and the table's. */
  function ColumnBytes(c: ColumnDef, before: seq<seq<byte>>, original: seq<byte>, filler: seq<byte>): (s: seq<byte>) {
    StringsBytes(before) + PutString(c.name) + PutString(original)
    + ([0x0c] + LittleEndian(c.charset, 2) + LittleEndian(c.columnLength, 4) + [c.typ] + LittleEndian(c.flags, 2)
       + [c.decimals] + filler)
  }

  predicate ValidColumn(c: ColumnDef, before: seq<seq<byte>>, original: seq<byte>) {
    && c.charset < 0x1_0000 && c.columnLength < 0x1_0000_0000 && c.flags < 0x1_0000 && |c.name| < U64 && |original| < U64
    && |before| == 4 && forall i :: 0 <= i < |before| ==> |before[i]| < U64
  }

  lemma {:induction false} StringsSkipped(ss: seq<seq<byte>>, rest: seq<byte>)
    requires forall i :: 0 <= i < |ss| ==> |ss[i]| < U64
    ensures AfterStrings(StringsBytes(ss) + rest, |ss|) == Some(rest)
    decreases |ss|
  {
    hide ReadString, PutString;
    if ss == [] {
      assert StringsBytes(ss) + rest == rest;
    } else {
      var more := StringsBytes(ss[1..]) + rest;
      assert StringsBytes(ss) + rest == PutString(ss[0]) + more;
      StringRoundTrip(ss[0], more);
      assert (PutString(ss[0]) + more)[|PutString(ss[0])|..] == more;
      StringsSkipped(ss[1..], rest);
    }
  }

  lemma {:induction false} FixedPart(c: ColumnDef, filler: seq<byte>)
    requires c.charset < 0x1_0000 && c.columnLength < 0x1_0000_0000 && c.flags < 0x1_0000
    ensures var f := [0x0c] + LittleEndian(c.charset, 2) + LittleEndian(c.columnLength, 4) + [c.typ]
                     + LittleEndian(c.flags, 2) + [c.decimals] + filler;
            && |f| == 11 + |filler| && Value(f[1..3]) == c.charset && Value(f[3..7]) == c.columnLength && f[7] == c.typ
            && Value(f[8..10]) == c.flags && f[10] == c.decimals
  {
    hide LittleEndian, Value, Radix;
    RadixValues();
    ValueOfLittleEndian(c.charset, 2);
    ValueOfLittleEndian(c.columnLength, 4);
    ValueOfLittleEndian(c.flags, 2);
    var f := [0x0c] + LittleEndian(c.charset, 2) + LittleEndian(c.columnLength, 4) + [c.typ] + LittleEndian(c.flags, 2)
             + [c.decimals] + filler;
    assert f[1..3] == LittleEndian(c.charset, 2) && f[3..7] == LittleEndian(c.columnLength, 4);
    assert f[8..10] == LittleEndian(c.flags, 2);
  }

  /** A definition that is sent whole reads back, and one without its last bytes does not. */
  lemma {:induction false} ColumnRoundTrip(c: ColumnDef, before: seq<seq<byte>>, original: seq<byte>, filler: seq<byte>)
    requires ValidColumn(c, before, original)
    ensures ParseColumn(ColumnBytes(c, before, original, filler)) == if |filler| >= 2 then Some(c) else None
  {
    hide ReadString, PutString, LittleEndian, Value, StringsBytes, AfterStrings;
    FixedPart(c, filler);
    var f := [0x0c] + LittleEndian(c.charset, 2) + LittleEndian(c.columnLength, 4) + [c.typ] + LittleEndian(c.flags, 2)
             + [c.decimals] + filler;
    var names := [c.name, original];
    NamesBytes(c.name, original);
    var s := StringsBytes(names) + f;
    assert ColumnBytes(c, before, original, filler) == StringsBytes(before) + s;
    StringsSkipped(before, s);
    StringsSkipped(names, f);
    StringRoundTrip(c.name, PutString(original) + f);
    assert s == PutString(c.name) + (PutString(original) + f);
  }

  lemma {:induction false} NamesBytes(a: seq<byte>, b: seq<byte>)
    ensures StringsBytes([a, b]) == PutString(a) + PutString(b)
  {
    hide PutString;
    assert [a, b][1..] == [b] && [b][1..] == [];
    assert StringsBytes([b]) == PutString(b) + [];
  }

  // ---- the head of a response ----

  datatype QueryRead = Streaming(ok: bool, rest: Packets) | NoRows(rest: Packets) | QueryErr(rest: Packets) | QueryBroken

  function FromOutcome(r: Outcome): QueryRead
    requires !r.More?
  {
    match r
    case Last(rest) => NoRows(rest)
    case ServerErr(rest) => QueryErr(rest)
    case Broken => QueryBroken
  }

  /** The head of a response: it stops after the column definitions of a result set. */
  function ReadQuery(s: Packets, mode: Mode): (r: QueryRead)
  {
    if s == [] || s[0] == [] then QueryBroken
    else if s[0][0] == ErrHeader then FromOutcome(ErrOutcome(s[0], s[1..]))
    else if s[0][0] == OKHeader then
      match HandleOK(s[0])
      case None => QueryBroken
      case Some(info) => if MoreResults(info.status) then FromOutcome(DrainRemaining(s[1..], mode)) else NoRows(s[1..])
    else ReadColumns(s[0], s[1..], mode)
  }

  function ReadColumns(first: seq<byte>, s: Packets, mode: Mode): (r: QueryRead)
  {
    match ReadInt(first)
    case BadInt(_) => QueryBroken
    case Int(n, _, _) =>
      if n > MaxResultColumns || |s| < n || exists i :: 0 <= i < n && !IsColumnDefinition(s[i]) then QueryBroken
      else
        match ReadMeta(s[n..], mode)
        case MetaBroken => QueryBroken
        case MetaErr(rest) => QueryErr(rest)
        case Kind(ok, rest) => Streaming(ok, rest)
  }

  /** The columns that a result set at the front of a stream announces. */
  function QueryColumns(s: Packets): (columns: seq<ColumnDef>) {
    if s == [] then []
    else
      match ReadInt(s[0])
      case BadInt(_) => []
      case Int(n, _, _) =>
        if |s| < 1 + n then []
        else
          seq(n, i requires 0 <= i < n =>
            match ParseColumn(s[1 + i]) case Some(c) => c case None => ColumnDef([], 0, 0, 0, 0, 0))
  }

  /** The counters of an executed statement: those of its first OK packet. */
  function ExecCounters(s: Packets): (int, int) {
    if s == [] then (0, 0)
    else
      match HandleOK(s[0])
      case None => (0, 0)
      case Some(info) => (info.affectedRows, info.lastInsertID)
  }

  datatype NextRead = GotRow(row: seq<byte>, rest: Packets) | Finished(rest: Packets) | NextErr(rest: Packets) | NextBroken

  function FromDrain(r: Outcome): NextRead
    requires !r.More?
  {
    match r
    case Last(rest) => Finished(rest)
    case ServerErr(rest) => NextErr(rest)
    case Broken => NextBroken
  }

  /** One call of Next on a streaming result set; `decoded` says whether the row packet parses as a row. */
  function ReadNext(s: Packets, ok: bool, decoded: bool, mode: Mode): (r: NextRead)
  {
    if s == [] then NextBroken
    else if EndsRows(s[0], ok, mode.track) then
      if HasMoreResults(s[0], mode.track) then FromDrain(DrainRemaining(s[1..], mode)) else Finished(s[1..])
    else if IsErr(s[0]) then FromDrain(ErrOutcome(s[0], s[1..]))
    else if decoded then GotRow(s[0], s[1..])
    else NextBroken
  }

  /** Close on a streaming result set. */
  function DrainOpen(s: Packets, ok: bool, mode: Mode): (r: Outcome)
    ensures !r.More?
  {
    match DrainRows(s, ok, mode.track, MaxDrainRows)
    case More(rest) => DrainRemaining(rest, mode)
    case r => r
  }

  // ---- the server's side ----

  datatype Term = EOFTerm(warnings: nat, status: nat) | OKTerm(ok: OK)

  datatype End = Complete(term: Term) | Failed(err: seq<byte>)

  datatype Part =
    | OKPart(ok: OK)
    | ErrPart(err: seq<byte>)
    | SetPart(columns: Packets, meta: Term, rows: Packets, end: End)

  function TermStatus(t: Term): nat {
    match t
    case EOFTerm(_, status) => status
    case OKTerm(ok) => ok.status
  }

  function TermBytes(t: Term, track: bool): (s: seq<byte>)
  {
    match t
    case EOFTerm(warnings, status) => EOFBytes(warnings, status)
    case OKTerm(ok) => OKBytes(EOFHeader, ok, track)
  }

  predicate ValidTerm(t: Term, track: bool) {
    match t
    case EOFTerm(_, status) => status < 0x1_0000
    case OKTerm(ok) => ValidOK(ok, track)
  }

  predicate ValidErr(packet: seq<byte>) {
    IsErr(packet) && |packet| >= 3
  }

  function EndBytes(e: End, track: bool): (s: seq<byte>)
  {
    match e
    case Complete(t) => TermBytes(t, track)
    case Failed(err) => err
  }

  /** The rows end with an error or with a terminator of the kind announced. */
  predicate ValidEnd(e: End, ok: bool, track: bool) {
    match e
    case Complete(t) => ValidTerm(t, track) && (t.OKTerm? <==> ok)
    case Failed(err) => ValidErr(err)
  }

  predicate ValidRows(rows: Packets, track: bool) {
    forall i :: 0 <= i < |rows| ==> IsRow(rows[i], track)
  }

  /** Whether OK-shaped terminators end the rows. */
  predicate OKEnds(p: Part, mode: Mode)
    requires p.SetPart?
  {
    mode.deprecateEOF || p.meta.OKTerm?
  }

  predicate ValidPart(p: Part, mode: Mode) {
    match p
    case OKPart(ok) => ValidOK(ok, mode.track)
    case ErrPart(err) => ValidErr(err)
    case SetPart(columns, meta, rows, end) =>
      && 1 <= |columns| < U64 && (forall i :: 0 <= i < |columns| ==> IsColumnDefinition(columns[i]))
      && ValidTerm(meta, mode.track) && ValidRows(rows, mode.track) && ValidEnd(end, OKEnds(p, mode), mode.track)
  }

  predicate EndMore(e: End) {
    e.Complete? && MoreResults(TermStatus(e.term))
  }

  predicate PartMore(p: Part) {
    match p
    case OKPart(ok) => MoreResults(ok.status)
    case ErrPart(_) => false
    case SetPart(_, _, _, end) => EndMore(end)
  }

  predicate PartFails(p: Part) {
    p.ErrPart? || (p.SetPart? && p.end.Failed?)
  }

  /** Result sets that the drain loops accept. */
  predicate Small(p: Part) {
    p.SetPart? ==> |p.columns| <= 10000 && |p.rows| < 10000
  }

  function RowsWire(rows: Packets, end: End, track: bool): (s: Packets)
    ensures |s| == |rows| + 1
  {
    rows + [EndBytes(end, track)]
  }

  function MetaWire(p: Part, mode: Mode): (s: Packets)
    requires p.SetPart?
  {
    if mode.deprecateEOF then [] else [TermBytes(p.meta, mode.track)]
  }

  function FirstPacket(p: Part, mode: Mode): (s: seq<byte>)
  {
    match p
    case OKPart(ok) => OKBytes(OKHeader, ok, mode.track)
    case ErrPart(err) => err
    case SetPart(columns, _, _, _) => PutInt(|columns|)
  }

  function LaterPackets(p: Part, mode: Mode): (s: Packets)
  {
    if p.SetPart? then p.columns + MetaWire(p, mode) + RowsWire(p.rows, p.end, mode.track) else []
  }

  function ChainWire(ps: seq<Part>, mode: Mode): (s: Packets)
  {
    if ps == [] then [] else [FirstPacket(ps[0], mode)] + LaterPackets(ps[0], mode) + ChainWire(ps[1..], mode)
  }

  /** Parts announce their successors: all of them but the last. */
  predicate ValidChain(ps: seq<Part>, mode: Mode) {
    && ps != [] && ValidPart(ps[0], mode)
    && (PartMore(ps[0]) <==> |ps| > 1)
    && (|ps| > 1 ==> ValidChain(ps[1..], mode))
  }

  /** What a chain comes to once it is drained completely. */
  predicate AllSmall(ps: seq<Part>) {
    forall i :: 0 <= i < |ps| ==> Small(ps[i])
  }

  function ChainOutcome(ps: seq<Part>, tail: Packets): Outcome
    requires ps != []
  {
    if !AllSmall(ps) then Broken
    else if PartFails(ps[|ps| - 1]) then ServerErr(tail)
    else Last(tail)
  }

  // ---- draining what a server sent ----

  lemma {:induction false} TermEnds(t: Term, track: bool)
    requires ValidTerm(t, track)
    ensures var p := TermBytes(t, track);
            && !IsErr(p) && IsTerminator(p, track)
            && (IsResultSetOK(p, track) <==> t.OKTerm?) && (IsEOF(p) <==> t.EOFTerm?)
            && (HasMoreResults(p, track) <==> MoreResults(TermStatus(t)))
  {
    hide IsResultSetOK, HasMoreResults, MoreResults, OKBytes, IsEOF, ValidOK;
    match t {
      case EOFTerm(w, status) =>
        EOFRecognised(w, status, track);
      case OKTerm(ok) =>
        OKTerminates(ok, track);
        OKFirstByte(EOFHeader, ok, track);
    }
  }

  lemma {:induction false} OKFirstByte(header: byte, ok: OK, track: bool)
    ensures |OKBytes(header, ok, track)| > 0 && OKBytes(header, ok, track)[0] == header
  {
  }

  /** Rows and their end, drained with a budget: the end must come within it. */
  lemma {:induction false} RowsDrain(rows: Packets, end: End, ok: bool, track: bool, tail: Packets, budget: nat)
    requires ValidRows(rows, track) && ValidEnd(end, ok, track)
    ensures DrainRows(RowsWire(rows, end, track) + tail, ok, track, budget) ==
            if |rows| >= budget then Broken
            else if end.Failed? then ServerErr(tail)
            else StatusOutcome(EndMore(end), tail)
    decreases |rows|
  {
    hide IsResultSetOK, HasMoreResults, MoreResults, IsEOF, TermBytes, ValidTerm;
    var s := RowsWire(rows, end, track) + tail;
    if budget > 0 {
      if rows == [] {
        assert s[0] == EndBytes(end, track) && s[1..] == tail;
        if end.Complete? {
          TermEnds(end.term, track);
        }
      } else {
        assert s[0] == rows[0] && IsRow(rows[0], track);
        assert s[1..] == RowsWire(rows[1..], end, track) + tail;
        RowsDrain(rows[1..], end, ok, track, tail, budget - 1);
      }
    }
  }

  lemma {:induction false} MetaOfPart(p: Part, mode: Mode, tail: Packets)
    requires p.SetPart? && ValidTerm(p.meta, mode.track)
    ensures ReadMeta(MetaWire(p, mode) + tail, mode) == Kind(OKEnds(p, mode), tail)
  {
    hide IsResultSetOK, TermBytes, ValidTerm, IsErr, IsTerminator;
    var s := MetaWire(p, mode) + tail;
    if mode.deprecateEOF {
      assert s == tail;
    } else {
      assert s[0] == TermBytes(p.meta, mode.track) && s[1..] == tail;
      TermEnds(p.meta, mode.track);
    }
  }

  lemma {:induction false} CountRead(n: nat)
    requires 1 <= n < U64
    ensures var s := PutInt(n);
            |s| > 0 && s[0] != OKHeader && s[0] != ErrHeader && ReadInt(s).Int? && ReadInt(s).value == n
  {
    hide PutInt, ReadInt;
    IntRoundTrip(n, []);
    FirstByte(n);
    assert PutInt(n) + [] == PutInt(n);
  }

  lemma {:induction false} PartDrains(p: Part, mode: Mode, tail: Packets)
    requires ValidPart(p, mode)
    ensures DrainPart(FirstPacket(p, mode), LaterPackets(p, mode) + tail, mode) ==
            if !Small(p) then Broken
            else if PartFails(p) then ServerErr(tail)
            else StatusOutcome(PartMore(p), tail)
  {
    hide ReadInt, PutInt, HandleOK, OKBytes, ValidOK, MoreResults, DrainRows, RowsWire, ReadMeta, MetaWire,
         IsColumnDefinition, ValidRows, ValidEnd, ValidTerm;
    match p {
      case OKPart(ok) =>
        OKRecognised(OKHeader, ok, mode.track);
        OKFirstByte(OKHeader, ok, mode.track);
        assert LaterPackets(p, mode) + tail == tail;
      case ErrPart(err) =>
        assert LaterPackets(p, mode) + tail == tail;
      case SetPart(columns, meta, rows, end) =>
        var n, ok := |columns|, OKEnds(p, mode);
        var body := RowsWire(rows, end, mode.track) + tail;
        CountRead(n);
        var s := LaterPackets(p, mode) + tail;
        assert s[n..] == MetaWire(p, mode) + body;
        MetaOfPart(p, mode, body);
        RowsDrain(rows, end, ok, mode.track, tail, MaxDrainRows);
    }
  }

  lemma {:induction false} ChainDrains(ps: seq<Part>, mode: Mode, tail: Packets)
    requires ValidChain(ps, mode)
    ensures DrainRemaining(ChainWire(ps, mode) + tail, mode) == ChainOutcome(ps, tail)
    decreases |ps|
  {
    hide DrainPart, FirstPacket, LaterPackets, ValidPart, Small, PartFails, PartMore;
    var s := ChainWire(ps, mode) + tail;
    var more := ChainWire(ps[1..], mode) + tail;
    assert s[0] == FirstPacket(ps[0], mode) && s[1..] == LaterPackets(ps[0], mode) + more;
    PartDrains(ps[0], mode, more);
    if |ps| > 1 {
      assert AllSmall(ps) <==> Small(ps[0]) && AllSmall(ps[1..]) by {
        assert ps == [ps[0]] + ps[1..];
      }
      NotLast(ps[0]);
      ChainDrains(ps[1..], mode, tail);
    } else {
      assert more == tail;
    }
  }

  lemma {:induction false} NotLast(p: Part)
    ensures PartMore(p) ==> !PartFails(p)
  {
  }
}
