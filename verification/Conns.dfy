/**
 Connections, statements, transactions and row cursors as the driver keeps them: fields updated under a mutex that a
 streaming result set takes over until it is done. Each method is tied to the step it makes on the packet stream and
 to the step it makes in following the server's time zone.
 */
module Conns {
  import opened Bytes
  import opened Lenenc
  import opened Terminators
  import opened Responses
  import opened ResponseRuns
  import opened SqlText
  import opened TimeZoneSql
  import opened TimeZoneStatements
  import SessionZones
  import OracleTime
  import ZoneInverse
  import TextRows
  import BinaryRows
  import SqlLexer
  import Params

  type Args = seq<SessionZones.Arg>

  /** How a call ends: well, with an error the server or the driver reports, or with a connection that is of no use. */
  datatype Status = Fine | ServerFault | ConnFault

  // ---- queries on their way to the server ----

  predicate Interpolates(query: string, args: seq<Params.NamedValue>) {
    SqlLexer.Marks(SqlLexer.Normal, query) == |args| && Params.AllLiteral(args)
  }

  function TextOf(query: string, args: seq<Params.NamedValue>): string
    requires Interpolates(query, args)
  {
    Params.Interpolated(query, Params.Rendered(args))
  }

  function CharsOf(bytes: seq<byte>): (s: string) {
    seq(|bytes|, i requires 0 <= i < |bytes| => bytes[i] as char)
  }

  /** Strings and byte strings are texts that may name a zone. */
  function ZoneArg(a: BinaryRows.Arg): SessionZones.Arg {
    match a
    case Text(bytes) => SessionZones.TextArg(CharsOf(bytes))
    case Blob(bytes) => SessionZones.TextArg(CharsOf(bytes))
    case _ => SessionZones.OtherArg
  }

  function ZoneArgs(args: seq<BinaryRows.Arg>): Args {
    seq(|args|, i requires 0 <= i < |args| => ZoneArg(args[i]))
  }

  // ---- what the answer says about the zone ----

  function DrainReply(o: Outcome, zone: SessionZones.ServerZone): SessionZones.Reply {
    match o
    case Last(_) => SessionZones.Accepted(zone)
    case ServerErr(_) => SessionZones.Rejected(zone)
    case _ => SessionZones.Lost
  }

  function QueryReply(r: QueryRead, zone: SessionZones.ServerZone): SessionZones.Reply {
    match r
    case Streaming(_, _) => SessionZones.Accepted(zone)
    case NoRows(_) => SessionZones.Accepted(zone)
    case QueryErr(_) => SessionZones.Rejected(zone)
    case QueryBroken => SessionZones.Lost
  }

  // ---- rows as values ----

  datatype RowValues = TextValues(columns: seq<TextRows.Column>) | BinaryValues(values: BinaryRows.Row)

  /** How the rows of a result set are read: their protocol, columns and the location of their timestamps. */
  datatype Format = Format(binary: bool, columns: seq<ColumnDef>, loc: OracleTime.Location)

  function TypesOf(columns: seq<ColumnDef>): (types: seq<byte>)
    ensures |types| == |columns|
  {
    seq(|columns|, i requires 0 <= i < |columns| => columns[i].typ)
  }

  /** The values of a row packet, if it parses as a row. */
  function Decode(f: Format, packet: seq<byte>): (r: Option<RowValues>) {
    if f.binary then
      match BinaryRows.ParseRow(packet, TypesOf(f.columns), f.loc)
      case Row(row) => Some(BinaryValues(row))
      case _ => None
    else
      match TextRows.ParseRow(packet, 0, |f.columns|, TypesOf(f.columns), f.loc)
      case Ok(row) => Some(TextValues(row))
      case Err(_) => None
  }

  predicate Decodes(f: Format, s: Packets) {
    s != [] && Decode(f, s[0]).Some?
  }

  /** The operations that calls come to: true fetches, and the next packet decides whether it decodes. */
  function OpsOf(st: State, f: Format, calls: seq<bool>, mode: Mode): (ops: seq<Op>)
    ensures |ops| == |calls|
    decreases |calls|
  {
    if calls == [] then []
    else
      var op := if calls[0] then Op.Next(Decodes(f, st.stream)) else Op.Close;
      [op] + OpsOf(Step(st, op, mode), f, calls[1..], mode)
  }

  function ValuesOf(f: Format, rows: Packets): (r: seq<Option<RowValues>>)
    ensures |r| == |rows|
  {
    seq(|rows|, i requires 0 <= i < |rows| => Decode(f, rows[i]))
  }

  // ---- what a call answers ----

  /** An answer without an error is a success if the zone could be followed. */
  function DrainStatus(o: Outcome, synced: bool): Status {
    match o
    case Last(_) => if synced then Fine else ConnFault
    case ServerErr(_) => ServerFault
    case _ => ConnFault
  }

  function QueryStatus(r: QueryRead, synced: bool): Status {
    match r
    case Streaming(_, _) => if synced then Fine else ConnFault
    case NoRows(_) => if synced then Fine else ConnFault
    case QueryErr(_) => ServerFault
    case QueryBroken => ConnFault
  }

  /** resolveSessionTimeZone for an Oracle tenant: an empty setting means UTC. */
  function Resolve(setting: string): (r: Option<SessionZones.Zone>) {
    if Trim(setting) == "" then SessionZones.ParseZone("UTC") else SessionZones.ParseZone(setting)
  }

  /** What a connection sends: the text of a query, or the payload that executes a prepared statement. */
  datatype Command = QueryText(text: string) | Execute(payload: seq<byte>)

  function QueryTexts(queries: seq<string>): (commands: seq<Command>)
    ensures |commands| == |queries|
  {
    seq(|queries|, i requires 0 <= i < |queries| => QueryText(queries[i]))
  }

  /** The driver's own statement, for an Oracle tenant with a zone that can be resolved. */
  function ConfigureCommands(oracle: bool, setting: string): (commands: seq<Command>) {
    if oracle && Resolve(setting).Some? then [QueryText(SessionZones.SessionTimeZoneSQL(Resolve(setting).value.canonical))]
    else []
  }

  class Conn {
    const mode: Mode
    const oracle: bool
    const setting: string
    const date: OracleTime.Chooser
    var incoming: Packets
    var sent: seq<Command>
    var bad: bool
    var closed: bool
    var mu: bool
    var location: Option<int>
    var inTx: bool
    ghost var server: SessionZones.ServerZone
    ghost var locks: nat
    ghost var unlocks: nat

    constructor (mode: Mode, oracle: bool, setting: string, date: OracleTime.Chooser, ghost server: SessionZones.ServerZone)
      ensures this.mode == mode && this.oracle == oracle && this.setting == setting && this.date == date
      ensures Usable() && !mu && Balanced()
      ensures View(false, false) == State([], false, None) && sent == []
      ensures SessionView() == SessionZones.Session(None, false, false, server)
    {
      this.mode, this.oracle, this.setting, this.date, this.server := mode, oracle, setting, date, server;
      incoming, sent, bad, closed, mu, location, inTx := [], [], false, false, false, None, false;
      locks, unlocks := 0, 0;
    }

    predicate Usable()
      reads this`closed, this`bad
    {
      !closed && !bad
    }

    ghost function SessionView(): SessionZones.Session
      reads this`location, this`bad, this`inTx, this`server
    {
      SessionZones.Session(location, bad, inTx, server)
    }

    /** Only an Oracle tenant has a zone to follow. */
    function ZoneEffect(query: string, args: Args): SessionZones.ZoneEffect {
      if oracle then SessionZones.ReadZone(query, args) else SessionZones.Unchanged
    }

    predicate Synced(query: string, args: Args) {
      !ZoneEffect(query, args).Unknown?
    }

    function Located(query: string, args: Args, before: Option<int>): Option<int> {
      match ZoneEffect(query, args)
      case Unchanged => before
      case Known(z) => Some(z.offset)
      case Unknown => None
    }

    /** Where timestamps of the session are read: its offset is in seconds. */
    function Here(): OracleTime.Location
      reads this`location
    {
      OracleTime.Location(
        match location
        case None => None
        case Some(offset) => Some(ZoneInverse.FixedZone(offset * 1_000_000_000)),
        date)
    }

    ghost predicate InStep()
      reads this`location, this`bad, this`inTx, this`server
    {
      oracle ==> SessionZones.Mirrors(SessionView())
    }

    /** The mutex has been released as often as taken, but for the holder there may be. */
    ghost predicate Balanced()
      reads this`mu, this`locks, this`unlocks
    {
      locks == unlocks + if mu then 1 else 0
    }

    /** The protocol state; what a retired connection still receives no longer matters. */
    function View(open: bool, ok: bool): State
      reads this`incoming, this`bad
    {
      if bad then Retired else State(incoming, false, if open then Some(ok) else None)
    }

    method Lock()
      requires !mu
      modifies this`mu, this`locks
      ensures mu && locks == old(locks) + 1
    {
      mu, locks := true, locks + 1;
    }

    /** Unlocking a mutex that is not held is a fatal error: every caller has to hold it. */
    method Unlock()
      requires mu
      modifies this`mu, this`unlocks
      ensures !mu && unlocks == old(unlocks) + 1
    {
      mu, unlocks := false, unlocks + 1;
    }

    /** The server answers a command with `reply`. */
    method Send(command: Command, reply: Packets)
      modifies this`sent, this`incoming
      ensures sent == old(sent) + [command] && incoming == old(incoming) + reply
    {
      sent, incoming := sent + [command], incoming + reply;
    }

    /** A read that fails retires the connection. */
    method ReadPacket() returns (packet: seq<byte>)
      requires !bad
      modifies this`incoming, this`bad
      ensures bad <==> old(incoming) == []
      ensures !bad ==> packet == old(incoming)[0] && incoming == old(incoming)[1..]
    {
      if incoming == [] {
        bad, packet := true, [];
      } else {
        packet, incoming := incoming[0], incoming[1..];
      }
    }

    /** markProtocolError(parseServerError(packet)) */
    method MarkServerError(packet: seq<byte>) returns (r: Status)
      requires !bad
      modifies this`bad
      ensures bad <==> |packet| < 3
      ensures r == if bad then ConnFault else ServerFault
    {
      if |packet| < 3 {
        bad := true;
        return ConnFault;
      }
      return ServerFault;
    }

    /** The state of the connection after a read that had this outcome. */
    ghost predicate Reached(o: Outcome, r: Status, more: bool)
      reads this`incoming, this`bad
    {
      match o
      case More(rest) => r == Fine && more && !bad && incoming == rest
      case Last(rest) => r == Fine && !more && !bad && incoming == rest
      case ServerErr(rest) => r == ServerFault && !bad && incoming == rest
      case Broken => r == ConnFault && bad
    }

    method DrainRowPackets(ok: bool) returns (r: Status, more: bool)
      requires !bad
      modifies this`incoming, this`bad
      ensures Reached(DrainRows(old(incoming), ok, mode.track, MaxDrainRows), r, more)
    {
      hide IsErr, EndsRows, HasMoreResults;
      more := false;
      for i := 0 to MaxDrainRows
        invariant !bad
        invariant DrainRows(old(incoming), ok, mode.track, MaxDrainRows) ==
                  DrainRows(incoming, ok, mode.track, MaxDrainRows - i)
      {
        var packet := ReadPacket();
        if bad {
          return ConnFault, false;
        }
        if IsErr(packet) {
          r := MarkServerError(packet);
          return;
        }
        if EndsRows(packet, ok, mode.track) {
          return Fine, HasMoreResults(packet, mode.track);
        }
      }
      bad := true;
      return ConnFault, false;
    }

    /** The terminator between column definitions and rows, when the mode has one. */
    method ReadMetaTerminator() returns (r: Status, ok: bool)
      requires !bad
      modifies this`incoming, this`bad
      ensures match ReadMeta(old(incoming), mode)
              case Kind(kind, rest) => r == Fine && ok == kind && !bad && incoming == rest
              case MetaErr(rest) => r == ServerFault && !bad && incoming == rest
              case MetaBroken => r == ConnFault && bad
    {
      hide IsErr, IsTerminator, IsResultSetOK;
      if mode.deprecateEOF {
        return Fine, true;
      }
      var packet := ReadPacket();
      if bad {
        return ConnFault, false;
      }
      if IsErr(packet) {
        r := MarkServerError(packet);
        return r, false;
      }
      if !IsTerminator(packet, mode.track) {
        bad := true;
        return ConnFault, false;
      }
      return Fine, IsResultSetOK(packet, mode.track);
    }

    method DrainResultSetAfterColumnCount(first: seq<byte>) returns (r: Status, more: bool)
      requires !bad
      modifies this`incoming, this`bad
      ensures Reached(DrainSet(first, old(incoming), mode), r, more)
    {
      hide ReadInt, ReadMeta, DrainRows;
      var count := ReadInt(first);
      if count.BadInt? || count.value > MaxResultColumns {
        bad := true;
        return ConnFault, false;
      }
      for i := 0 to count.value
        invariant !bad && i <= |old(incoming)| && incoming == old(incoming)[i..]
      {
        var _ := ReadPacket();
        if bad {
          return ConnFault, false;
        }
      }
      var meta, ok := ReadMetaTerminator();
      if meta != Fine {
        return meta, false;
      }
      r, more := DrainRowPackets(ok);
    }

    method DrainResultFromFirstPacket(first: seq<byte>) returns (r: Status, more: bool)
      requires !bad
      modifies this`incoming, this`bad
      ensures Reached(DrainPart(first, old(incoming), mode), r, more)
    {
      hide HandleOK, DrainSet, MoreResults;
      if first == [] {
        bad := true;
        return ConnFault, false;
      }
      if first[0] == OKHeader {
        var status := HandleOK(first);
        if status.None? {
          bad := true;
          return ConnFault, false;
        }
        return Fine, MoreResults(status.value.status);
      }
      if first[0] == ErrHeader {
        r := MarkServerError(first);
        return r, false;
      }
      r, more := DrainResultSetAfterColumnCount(first);
    }

    method DrainResultSetsFromFirstPacket(first: seq<byte>) returns (r: Status)
      requires !bad
      modifies this`incoming, this`bad
      ensures Reached(DrainChain(first, old(incoming), mode), r, false)
    {
      hide DrainPart;
      var packet := first;
      while true
        invariant !bad
        invariant DrainChain(first, old(incoming), mode) == DrainChain(packet, incoming, mode)
        decreases |incoming|
      {
        var more;
        r, more := DrainResultFromFirstPacket(packet);
        if r != Fine || !more {
          return;
        }
        packet := ReadPacket();
        if bad {
          return ConnFault;
        }
      }
    }

    method DrainRemainingResults() returns (r: Status)
      requires !bad
      modifies this`incoming, this`bad
      ensures Reached(DrainRemaining(old(incoming), mode), r, false)
    {
      var first := ReadPacket();
      if bad {
        return ConnFault;
      }
      r := DrainResultSetsFromFirstPacket(first);
    }

    /** The head of a response: rows are left in the stream. */
    method ReadQueryResult() returns (r: Status, streaming: bool, ok: bool, columns: seq<ColumnDef>)
      requires !bad
      modifies this`incoming, this`bad
      ensures match ReadQuery(old(incoming), mode)
              case Streaming(kind, rest) => r == Fine && streaming && ok == kind && !bad && incoming == rest
              case NoRows(rest) => r == Fine && !streaming && !bad && incoming == rest
              case QueryErr(rest) => r == ServerFault && !bad && incoming == rest
              case QueryBroken => r == ConnFault && bad
      ensures streaming ==> columns == QueryColumns(old(incoming))
    {
      hide HandleOK, DrainRemaining, MoreResults, ReadColumns;
      streaming, ok, columns := false, false, [];
      var first := ReadPacket();
      if bad {
        return ConnFault, false, false, [];
      }
      if first == [] {
        bad := true;
        return ConnFault, false, false, [];
      }
      if first[0] == ErrHeader {
        r := MarkServerError(first);
        return;
      }
      if first[0] == OKHeader {
        var status := HandleOK(first);
        if status.None? {
          bad := true;
          return ConnFault, false, false, [];
        }
        r := Fine;
        if MoreResults(status.value.status) {
          r := DrainRemainingResults();
        }
        return;
      }
      r, streaming, ok, columns := ReadColumnDefinitions(first);
    }

    method ReadColumnDefinitions(first: seq<byte>)
      returns (r: Status, streaming: bool, ok: bool, columns: seq<ColumnDef>)
      requires !bad
      modifies this`incoming, this`bad
      ensures match ReadColumns(first, old(incoming), mode)
              case Streaming(kind, rest) => r == Fine && streaming && ok == kind && !bad && incoming == rest
              case NoRows(rest) => false
              case QueryErr(rest) => r == ServerFault && !bad && incoming == rest
              case QueryBroken => r == ConnFault && bad
      ensures streaming ==> columns == QueryColumns([first] + old(incoming))
    {
      hide ReadInt, ReadMeta, ParseColumn;
      columns := [];
      var count := ReadInt(first);
      if count.BadInt? || count.value > MaxResultColumns {
        bad := true;
        return ConnFault, false, false, [];
      }
      for i := 0 to count.value
        invariant !bad && i <= |old(incoming)| && incoming == old(incoming)[i..]
        invariant forall k :: 0 <= k < i ==> IsColumnDefinition(old(incoming)[k])
        invariant |columns| == i && forall k :: 0 <= k < i ==> Some(columns[k]) == ParseColumn(old(incoming)[k])
      {
        var packet := ReadPacket();
        if bad {
          return ConnFault, false, false, [];
        }
        var column := ParseColumn(packet);
        if column.None? {
          bad := true;
          return ConnFault, false, false, [];
        }
        columns := columns + [column.value];
      }
      r, ok := ReadMetaTerminator();
      streaming := r == Fine;
      assert ([first] + old(incoming))[0] == first;
      assert forall k :: 0 <= k < |columns| ==> ([first] + old(incoming))[1 + k] == old(incoming)[k];
    }

    /** The response to a statement that is executed: everything is read, and rows are thrown away. */
    method ReadResultFromFirstPacket(packet: seq<byte>) returns (r: Status, counters: (int, int))
      requires !bad
      modifies this`incoming, this`bad
      ensures Reached(DrainChain(packet, old(incoming), mode), r, false)
      ensures r == Fine ==> counters == ExecCounters([packet])
    {
      hide HandleOK, DrainSet, MoreResults;
      counters := (0, 0);
      OnlyOK(packet);
      if packet == [] {
        bad := true;
        return ConnFault, (0, 0);
      }
      if packet[0] == OKHeader {
        var status := HandleOK(packet);
        if status.None? {
          bad := true;
          return ConnFault, (0, 0);
        }
        counters := (status.value.affectedRows, status.value.lastInsertID);
        r := Fine;
        if MoreResults(status.value.status) {
          r := DrainRemainingResults();
        }
      } else if packet[0] == ErrHeader {
        r := MarkServerError(packet);
      } else {
        r := DrainResultSetsFromFirstPacket(packet);
      }
    }

    // ---- the time zone ----

    /** updateSessionTimeZoneFromQuery, called after the server accepted the statement. */
    method UpdateFromQuery(query: string, args: Args) returns (ok: bool)
      requires !bad
      modifies this`location, this`bad
      ensures ok <==> !bad
      ensures (bad <==> !Synced(query, args)) && location == Located(query, args, old(location))
    {
      hide Recognise, IsMutation, SessionZones.ParseZone;
      if !oracle {
        return true;
      }
      var a := AssignmentFromQuery(query);
      if a.None? {
        if IsMutation(query) {
          location, bad := None, true;
          return false;
        }
        return true;
      }
      var text := SessionZones.AssignedText(a.value, args);
      if text.None? {
        location, bad := None, true;
        return false;
      }
      var zone := SessionZones.ParseZone(text.value);
      if zone.None? {
        location, bad := None, true;
        return false;
      }
      location := Some(zone.value.offset);
      return true;
    }

    // ---- requests ----

    /** Sends a query that the server answers with `reply` and after which its zone is `zone`. */
    method QueryLocked(query: string, reply: Packets, ghost zone: SessionZones.ServerZone)
      returns (r: Status, streaming: bool, ok: bool, columns: seq<ColumnDef>)
      requires !bad
      modifies this`sent, this`incoming, this`bad, this`location, this`server
      ensures sent == old(sent) + [QueryText(query)]
      ensures streaming ==> r == Fine && columns == QueryColumns(old(incoming) + reply)
      ensures r == ConnFault <==> bad
      ensures r == QueryStatus(ReadQuery(old(incoming) + reply, mode), Synced(query, []))
      ensures View(streaming, ok) == AfterQuery(ReadQuery(old(incoming) + reply, mode), Synced(query, []))
      ensures oracle ==>
                SessionView() == SessionZones.AfterStatement(old(SessionView()), query, [],
                                                             QueryReply(ReadQuery(old(incoming) + reply, mode), zone))
      ensures !oracle ==> location == old(location)
    {
      hide ReadQuery, SessionZones.ReadZone;
      Send(QueryText(query), reply);
      r, streaming, ok, columns := ReadQueryResult();
      if !bad {
        server := zone;
      }
      if r != Fine {
        return r, false, false, [];
      }
      var done := UpdateFromQuery(query, []);
      if !done {
        return ConnFault, false, false, [];
      }
    }

    method ExecLocked(query: string, reply: Packets, ghost zone: SessionZones.ServerZone)
      returns (r: Status, counters: (int, int))
      requires !bad
      modifies this`sent, this`incoming, this`bad, this`location, this`server
      ensures sent == old(sent) + [QueryText(query)]
      ensures r == ConnFault <==> bad
      ensures r == Fine <==> DrainRemaining(old(incoming) + reply, mode).Last? && !bad
      ensures r == Fine ==> counters == ExecCounters(old(incoming) + reply)
      ensures r == DrainStatus(DrainRemaining(old(incoming) + reply, mode), Synced(query, []))
      ensures View(false, false) == AfterDrain(DrainRemaining(old(incoming) + reply, mode), Synced(query, []))
      ensures oracle ==>
                SessionView() == SessionZones.AfterStatement(old(SessionView()), query, [],
                                                             DrainReply(DrainRemaining(old(incoming) + reply, mode), zone))
      ensures !oracle ==> location == old(location)
    {
      hide DrainRemaining, SessionZones.ReadZone, ExecCounters;
      r, counters := ReadResult(QueryText(query), reply);
      if !bad {
        server := zone;
      }
      if r == Fine {
        var done := UpdateFromQuery(query, []);
        if !done {
          r := ConnFault;
        }
      }
    }

    method ReadResult(command: Command, reply: Packets) returns (r: Status, counters: (int, int))
      requires !bad
      modifies this`sent, this`incoming, this`bad
      ensures Reached(DrainRemaining(old(incoming) + reply, mode), r, false)
      ensures sent == old(sent) + [command]
      ensures r == Fine ==> counters == ExecCounters(old(incoming) + reply)
    {
      hide DrainChain;
      Send(command, reply);
      var first := ReadPacket();
      if bad {
        return ConnFault, (0, 0);
      }
      r, counters := ReadResultFromFirstPacket(first);
    }

    /**
     Nothing happens when the arguments cannot be interpolated. Otherwise hands the mutex to the rows when there are rows
     to stream, and releases it on every other way out.
     */
    method QueryContext(query: string, args: seq<Params.NamedValue>, reply: Packets, ghost zone: SessionZones.ServerZone)
      returns (r: Status, rows: Rows?)
      requires !mu && Balanced()
      modifies this`sent, this`incoming, this`bad, this`mu, this`locks, this`unlocks, this`location, this`server
      ensures rows != null ==> fresh(rows) && rows.Valid() && rows.conn == this
      ensures r == Fine <==> rows != null
      ensures sent ==
              old(sent) + if Interpolates(query, args) && old(Usable()) then [QueryText(TextOf(query, args))] else []
      ensures r == if !Interpolates(query, args) then ServerFault
                   else if old(!Usable()) then ConnFault
                   else QueryStatus(ReadQuery(old(incoming) + reply, mode), Synced(TextOf(query, args), []))
      ensures Balanced() && (mu <==> rows != null && rows.streaming)
      ensures rows != null && rows.streaming ==>
                rows.format == Format(false, QueryColumns(old(incoming) + reply), old(Here()))
      ensures locks == old(locks) + if Interpolates(query, args) then 1 else 0
      ensures View(mu, mu && rows.ok) ==
              if !Interpolates(query, args) || old(!Usable()) then old(View(false, false))
              else AfterQuery(ReadQuery(old(incoming) + reply, mode), Synced(TextOf(query, args), []))
      ensures oracle ==>
                SessionView() ==
                if !Interpolates(query, args) || old(!Usable()) then old(SessionView())
                else SessionZones.AfterStatement(old(SessionView()), TextOf(query, args), [],
                                                 QueryReply(ReadQuery(old(incoming) + reply, mode), zone))
    {
      hide ReadQuery, SessionZones.AfterStatement, SessionZones.ReadZone, Params.Interpolated, Params.AllLiteral, AfterQuery;
      rows := null;
      var text := Params.InterpolateParams(query, args);
      if text.None? {
        return ServerFault, null;
      }
      Lock();
      if !Usable() {
        Unlock();
        return ConnFault, null;
      }
      var streaming, ok, columns;
      var loc := Here();
      r, streaming, ok, columns := QueryLocked(text.value, reply, zone);
      if r != Fine {
        Unlock();
        return;
      }
      rows := new Rows(this, streaming, ok, Format(false, columns, loc));
      if streaming {
        rows.release := true;
      } else {
        Unlock();
      }
    }

    method ExecContext(query: string, args: seq<Params.NamedValue>, reply: Packets, ghost zone: SessionZones.ServerZone)
      returns (r: Status, counters: (int, int))
      requires !mu && Balanced()
      modifies this`sent, this`incoming, this`bad, this`mu, this`locks, this`unlocks, this`location, this`server
      ensures r == Fine ==> counters == ExecCounters(old(incoming) + reply)
      ensures Balanced() && !mu && locks == old(locks) + if Interpolates(query, args) then 1 else 0
      ensures sent ==
              old(sent) + if Interpolates(query, args) && old(Usable()) then [QueryText(TextOf(query, args))] else []
      ensures r == if !Interpolates(query, args) then ServerFault
                   else if old(!Usable()) then ConnFault
                   else DrainStatus(DrainRemaining(old(incoming) + reply, mode), Synced(TextOf(query, args), []))
      ensures View(false, false) ==
              if !Interpolates(query, args) || old(!Usable()) then old(View(false, false))
              else AfterDrain(DrainRemaining(old(incoming) + reply, mode), Synced(TextOf(query, args), []))
      ensures oracle ==>
                SessionView() ==
                if !Interpolates(query, args) || old(!Usable()) then old(SessionView())
                else SessionZones.AfterStatement(old(SessionView()), TextOf(query, args), [],
                                                 DrainReply(DrainRemaining(old(incoming) + reply, mode), zone))
    {
      hide DrainRemaining, SessionZones.AfterStatement, SessionZones.ReadZone, Params.Interpolated, Params.AllLiteral,
           AfterDrain, ExecCounters;
      var text := Params.InterpolateParams(query, args);
      counters := (0, 0);
      if text.None? {
        return ServerFault, counters;
      }
      Lock();
      if !Usable() {
        r := ConnFault;
      } else {
        r, counters := ExecLocked(text.value, reply, zone);
      }
      Unlock();
    }

    // ---- transactions, opening and resetting ----

    /** A prepared query: the payload is built first, and the zone is followed by the statement's own text. */
    method StmtQueryLocked(stmtID: nat, query: string, args: seq<BinaryRows.Arg>, reply: Packets,
                           ghost zone: SessionZones.ServerZone)
      returns (r: Status, streaming: bool, ok: bool, columns: seq<ColumnDef>)
      requires !bad && BinaryRows.ValidArgs(args)
      modifies this`sent, this`incoming, this`bad, this`location, this`server
      ensures streaming ==> r == Fine && columns == QueryColumns(old(incoming) + reply)
      ensures sent ==
              old(sent) + if BinaryRows.Sendable(args) then [Execute(BinaryRows.ExecutePayload(stmtID, args))] else []
      ensures View(streaming, ok) ==
              if !BinaryRows.Sendable(args) then old(View(false, false))
              else AfterQuery(ReadQuery(old(incoming) + reply, mode), Synced(query, ZoneArgs(args)))
      ensures oracle ==>
                SessionView() ==
                if !BinaryRows.Sendable(args) then old(SessionView())
                else SessionZones.AfterStatement(old(SessionView()), query, ZoneArgs(args),
                                                 QueryReply(ReadQuery(old(incoming) + reply, mode), zone))
      ensures r == Fine ==> !bad
      ensures r == if !BinaryRows.Sendable(args) then ServerFault
                   else QueryStatus(ReadQuery(old(incoming) + reply, mode), Synced(query, ZoneArgs(args)))
    {
      hide ReadQuery, SessionZones.ReadZone, BinaryRows.Sendable, BinaryRows.ValidArgs, BinaryRows.ExecutePayload, ZoneArgs;
      streaming, ok, columns := false, false, [];
      var payload := BinaryRows.WriteExecute(stmtID, args);
      if payload.Err? {
        return ServerFault, false, false, [];
      }
      Send(Execute(payload.value), reply);
      r, streaming, ok, columns := ReadQueryResult();
      if !bad {
        server := zone;
      }
      if r != Fine {
        return r, false, false, [];
      }
      var done := UpdateFromQuery(query, ZoneArgs(args));
      if !done {
        return ConnFault, false, false, [];
      }
    }

    method StmtExecLocked(stmtID: nat, query: string, args: seq<BinaryRows.Arg>, reply: Packets,
                          ghost zone: SessionZones.ServerZone) returns (r: Status, counters: (int, int))
      requires !bad && BinaryRows.ValidArgs(args)
      modifies this`sent, this`incoming, this`bad, this`location, this`server
      ensures r == Fine ==> counters == ExecCounters(old(incoming) + reply)
      ensures r == if !BinaryRows.Sendable(args) then ServerFault
                   else DrainStatus(DrainRemaining(old(incoming) + reply, mode), Synced(query, ZoneArgs(args)))
      ensures sent ==
              old(sent) + if BinaryRows.Sendable(args) then [Execute(BinaryRows.ExecutePayload(stmtID, args))] else []
      ensures View(false, false) ==
              if !BinaryRows.Sendable(args) then old(View(false, false))
              else AfterDrain(DrainRemaining(old(incoming) + reply, mode), Synced(query, ZoneArgs(args)))
      ensures oracle ==>
                SessionView() ==
                if !BinaryRows.Sendable(args) then old(SessionView())
                else SessionZones.AfterStatement(old(SessionView()), query, ZoneArgs(args),
                                                 DrainReply(DrainRemaining(old(incoming) + reply, mode), zone))
    {
      hide DrainRemaining, SessionZones.ReadZone, BinaryRows.Sendable, BinaryRows.ValidArgs, BinaryRows.ExecutePayload,
           ZoneArgs, ExecCounters;
      counters := (0, 0);
      var payload := BinaryRows.WriteExecute(stmtID, args);
      if payload.Err? {
        return ServerFault, counters;
      }
      r, counters := ReadResult(Execute(payload.value), reply);
      if !bad {
        server := zone;
      }
      if r == Fine {
        var done := UpdateFromQuery(query, ZoneArgs(args));
        r := if done then Fine else ConnFault;
      }
    }

    /** One transaction at a time. */
    method BeginTx() returns (tx: Tx?)
      requires !mu && Balanced()
      modifies this`inTx, this`mu, this`locks, this`unlocks
      ensures !mu && Balanced() && inTx && (tx == null <==> old(inTx))
      ensures SessionView() == SessionZones.Step(old(SessionView()), SessionZones.Begin, SessionZones.Zone(0, ""))
      ensures tx != null ==> fresh(tx) && tx.conn == this && !tx.done
    {
      tx := null;
      Lock();
      if !inTx {
        inTx := true;
        tx := new Tx(this);
      }
      Unlock();
    }

    /** configureSessionTimeZone: sends the zone of the configuration, or decodes as UTC for other tenants. */
    method Configure(reply: Packets, ghost zone: SessionZones.ServerZone) returns (ok: bool)
      requires !bad
      modifies this`sent, this`incoming, this`bad, this`location, this`server
      ensures sent == old(sent) + ConfigureCommands(oracle, setting)
      ensures oracle && Resolve(setting).Some? ==>
                SessionView() == SessionZones.AfterConfigure(old(SessionView()), Resolve(setting).value,
                                                             DrainReply(DrainRemaining(old(incoming) + reply, mode), zone))
      ensures oracle && Resolve(setting).None? ==> !ok && SessionView() == old(SessionView())
      ensures oracle && ok ==>
                && !bad && Resolve(setting).Some? && location == Some(Resolve(setting).value.offset)
                && DrainReply(DrainRemaining(old(incoming) + reply, mode), zone) == SessionZones.Accepted(zone)
      ensures !ok && oracle && Resolve(setting).Some? ==>
                bad || !DrainReply(DrainRemaining(old(incoming) + reply, mode), zone).Accepted?
      ensures !oracle ==> ok && !bad && location == Some(0)
    {
      hide Resolve, SessionZones.AfterStatement, SessionZones.SessionTimeZoneSQL, SessionZones.ReadZone, DrainRemaining;
      if !oracle {
        location := Some(0);
        return true;
      }
      var resolved := Resolve(setting);
      if resolved.None? {
        return false;
      }
      var r, _ := ExecLocked(SessionZones.SessionTimeZoneSQL(resolved.value.canonical), reply, zone);
      ok := r == Fine;
      if ok {
        location := Some(resolved.value.offset);
      }
    }

    /**
     Opening: the initialisation statements may leave the zone anywhere, but a connection that is handed out has
     been set to the configured zone, on both sides.
     */
    method Open(queries: seq<string>, replies: seq<Packets>, reply: Packets, ghost zone: SessionZones.ServerZone)
      returns (ok: bool)
      requires |queries| == |replies| && !bad
      requires oracle && Resolve(setting).Some? ==>
                 OwnStatementAllowed(Resolve(setting).value, SessionZones.Accepted(zone))
      modifies this`sent, this`incoming, this`bad, this`location, this`server
      ensures ok ==> !bad && InStep()
      ensures ok ==> sent == old(sent) + (QueryTexts(queries) + ConfigureCommands(oracle, setting))
      ensures ok && oracle ==> Resolve(setting).Some? && location == Some(Resolve(setting).value.offset)
    {
      hide Resolve, SessionZones.AfterStatement, SessionZones.AfterConfigure, OwnStatementAllowed, DrainRemaining, AfterDrain;
      for i := 0 to |queries|
        invariant !bad && sent == old(sent) + QueryTexts(queries[..i])
      {
        assert QueryTexts(queries[..i + 1]) == QueryTexts(queries[..i]) + [QueryText(queries[i])];
        var r, _ := ExecLocked(queries[i], replies[i], server);
        if r != Fine {
          return false;
        }
      }
      assert queries[..|queries|] == queries;
      ghost var before := SessionView();
      ok := Configure(reply, zone);
      if ok && oracle {
        Configured(before, setting, SessionZones.Accepted(zone));
      }
    }

    /** What is still to be read once an open transaction has been rolled back. */
    ghost function LeftBy(rollback: Packets): Packets
      reads this`inTx, this`incoming
    {
      if !inTx then incoming
      else
        match DrainRemaining(incoming + rollback, mode)
        case Last(rest) => rest
        case _ => []
    }

    function Rollbacks(): (commands: seq<Command>)
      reads this`inTx
    {
      if inTx then [QueryText("rollback")] else []
    }

    /** ResetSession: rolls back what is open and restores the configured zone, or retires the connection. */
    method ResetSession(rollback: Packets, ghost rolledBack: SessionZones.ServerZone, configure: Packets,
                        ghost configured: SessionZones.ServerZone) returns (ok: bool)
      requires !mu && Balanced()
      modifies this`sent, this`incoming, this`bad, this`mu, this`locks, this`unlocks, this`location, this`inTx, this`server
      ensures !mu && Balanced()
      ensures ok ==> sent == old(sent) + (old(Rollbacks()) + ConfigureCommands(oracle, setting))
      ensures old(!Usable()) ==> !ok && sent == old(sent) && SessionView() == old(SessionView())
      ensures old(Usable()) && !ok ==> bad
      ensures ok && oracle ==> Resolve(setting).Some? && location == Some(Resolve(setting).value.offset)
      ensures ok ==> !inTx && !bad
      ensures old(Usable()) && oracle && Resolve(setting).Some? ==>
                SessionView() ==
                SessionZones.AfterReset(old(SessionView()), Resolve(setting).value,
                                        DrainReply(DrainRemaining(old(incoming) + rollback, mode), rolledBack),
                                        DrainReply(DrainRemaining(old(LeftBy(rollback)) + configure, mode), configured))
    {
      hide Resolve, SessionZones.AfterStatement, SessionZones.SessionTimeZoneSQL, DrainRemaining, AfterDrain;
      Lock();
      ok := Usable();
      if ok {
        ok := ResetLocked(rollback, rolledBack, configure, configured);
      }
      Unlock();
    }

    method ResetLocked(rollback: Packets, ghost rolledBack: SessionZones.ServerZone, configure: Packets,
                       ghost configured: SessionZones.ServerZone) returns (ok: bool)
      requires !bad
      modifies this`sent, this`incoming, this`bad, this`location, this`inTx, this`server
      ensures ok ==> sent == old(sent) + (old(Rollbacks()) + ConfigureCommands(oracle, setting))
      ensures ok && oracle ==> Resolve(setting).Some? && location == Some(Resolve(setting).value.offset)
      ensures (ok <==> !bad) && (ok ==> !inTx)
      ensures oracle && Resolve(setting).Some? ==>
                SessionView() ==
                SessionZones.AfterReset(old(SessionView()), Resolve(setting).value,
                                        DrainReply(DrainRemaining(old(incoming) + rollback, mode), rolledBack),
                                        DrainReply(DrainRemaining(old(LeftBy(rollback)) + configure, mode), configured))
    {
      hide Resolve, SessionZones.AfterStatement, SessionZones.SessionTimeZoneSQL, SessionZones.ReadZone, DrainRemaining;
      if inTx {
        var r, _ := ExecLocked("rollback", rollback, rolledBack);
        if r != Fine {
          bad := true;
          return false;
        }
        inTx := false;
      }
      assert incoming == old(LeftBy(rollback));
      ok := Configure(configure, configured);
      if !ok {
        bad := true;
      }
    }
  }

  /** Whatever the zone was before, the server obeys the driver's own statement. */
  ghost predicate OwnStatementAllowed(zone: SessionZones.Zone, reply: SessionZones.Reply) {
    forall before ::
      SessionZones.ServerAllows(before, SessionZones.SessionTimeZoneSQL(zone.canonical), [], reply)
  }

  lemma {:induction false} Configured(s: SessionZones.Session, setting: string, reply: SessionZones.Reply)
    requires !s.bad && Resolve(setting).Some? && OwnStatementAllowed(Resolve(setting).value, reply)
    requires reply.Accepted?
    ensures var r := SessionZones.AfterConfigure(s, Resolve(setting).value, reply);
            SessionZones.Mirrors(r) && !r.bad && r.location == Some(Resolve(setting).value.offset)
  {
    hide SessionZones.AfterConfigure, SessionZones.ParseZone, SessionZones.ServerAllows, SessionZones.SessionTimeZoneSQL;
    SessionZones.ConfigureMirrors(s, if Trim(setting) == "" then "UTC" else setting, reply);
  }

  /** A transaction handle. */
  class Tx {
    const conn: Conn
    var done: bool

    constructor (conn: Conn)
      ensures this.conn == conn && !done
    {
      this.conn, done := conn, false;
    }

    /** Commit or rollback: only a first accepted one ends the transaction, and a finished handle does nothing. */
    method Finish(query: string, reply: Packets, ghost zone: SessionZones.ServerZone) returns (ok: bool)
      requires !conn.mu && conn.Balanced()
      modifies this`done, conn`sent, conn`incoming, conn`bad, conn`mu, conn`locks, conn`unlocks, conn`location,
               conn`inTx, conn`server
      ensures !conn.mu && conn.Balanced() && conn.locks == old(conn.locks) + if old(done) then 0 else 1
      ensures conn.sent == old(conn.sent) + if old(!done && conn.Usable()) then [QueryText(query)] else []
      ensures old(done) ==> ok && done && conn.SessionView() == old(conn.SessionView()) && conn.incoming == old(conn.incoming)
      ensures !old(done) ==> (done <==> ok) && (ok ==> !conn.inTx && !conn.bad)
      ensures !old(done) && old(!conn.Usable()) ==> !ok && conn.SessionView() == old(conn.SessionView())
      ensures !old(done) && old(conn.Usable()) ==>
                && (!ok ==> conn.inTx == old(conn.inTx))
                && (conn.oracle ==>
                      conn.SessionView() ==
                      SessionZones.Step(old(conn.SessionView()),
                                        SessionZones.Finish(query, DrainReply(DrainRemaining(old(conn.incoming) + reply,
                                                                                             conn.mode), zone)),
                                        SessionZones.Zone(0, "")))
    {
      hide SessionZones.AfterStatement, SessionZones.ReadZone, DrainRemaining, AfterDrain;
      if done {
        return true;
      }
      conn.Lock();
      ok := conn.Usable();
      if ok {
        var r, _ := conn.ExecLocked(query, reply, zone);
        ok := r == Fine;
        if ok {
          done := true;
          conn.inTx := false;
        }
      }
      conn.Unlock();
    }
  }

  /** A prepared statement; the binary protocol differs in the rows, not in the shape of the response. */
  class Stmt {
    const conn: Conn
    const query: string
    const stmtID: nat
    var closed: bool

    constructor (conn: Conn, query: string, stmtID: nat)
      ensures this.conn == conn && this.query == query && this.stmtID == stmtID && !closed
    {
      this.conn, this.query, this.stmtID := conn, query, stmtID;
      closed := false;
    }

    /** Nothing is sent by a closed statement, on a connection that is of no use, or with an unsupported argument. */
    predicate Sends(args: seq<BinaryRows.Arg>)
      reads this`closed, conn`closed, conn`bad
    {
      !closed && conn.Usable() && BinaryRows.Sendable(args)
    }

    method QueryContext(args: seq<BinaryRows.Arg>, reply: Packets, ghost zone: SessionZones.ServerZone)
      returns (r: Status, rows: Rows?)
      requires !conn.mu && conn.Balanced() && BinaryRows.ValidArgs(args)
      modifies conn`sent, conn`incoming, conn`bad, conn`mu, conn`locks, conn`unlocks, conn`location, conn`server
      ensures rows != null ==> fresh(rows) && rows.Valid() && rows.conn == conn
      ensures r == if closed then ServerFault
                   else if old(!conn.Usable()) then ConnFault
                   else if !BinaryRows.Sendable(args) then ServerFault
                   else QueryStatus(ReadQuery(old(conn.incoming) + reply, conn.mode), conn.Synced(query, ZoneArgs(args)))
      ensures r == Fine <==> rows != null
      ensures rows != null && rows.streaming ==>
                rows.format == Format(true, QueryColumns(old(conn.incoming) + reply), old(conn.Here()))
      ensures conn.Balanced() && (conn.mu <==> rows != null && rows.streaming)
      ensures conn.locks == old(conn.locks) + if closed then 0 else 1
      ensures conn.sent ==
              old(conn.sent) + if old(Sends(args)) then [Execute(BinaryRows.ExecutePayload(stmtID, args))] else []
      ensures conn.View(conn.mu, conn.mu && rows.ok) ==
              if !old(Sends(args)) then old(conn.View(false, false))
              else AfterQuery(ReadQuery(old(conn.incoming) + reply, conn.mode), conn.Synced(query, ZoneArgs(args)))
      ensures conn.oracle ==>
                conn.SessionView() ==
                if !old(Sends(args)) then old(conn.SessionView())
                else SessionZones.AfterStatement(old(conn.SessionView()), query, ZoneArgs(args),
                                                 QueryReply(ReadQuery(old(conn.incoming) + reply, conn.mode), zone))
    {
      hide ReadQuery, AfterQuery, SessionZones.ReadZone, SessionZones.AfterStatement, BinaryRows.Sendable,
           BinaryRows.ValidArgs, ZoneArgs;
      rows := null;
      if closed {
        return ServerFault, null;
      }
      conn.Lock();
      if !conn.Usable() {
        conn.Unlock();
        return ConnFault, null;
      }
      var streaming, ok, columns;
      var loc := conn.Here();
      r, streaming, ok, columns := conn.StmtQueryLocked(stmtID, query, args, reply, zone);
      if r != Fine {
        conn.Unlock();
        return;
      }
      rows := new Rows(conn, streaming, ok, Format(true, columns, loc));
      if streaming {
        rows.release := true;
      } else {
        conn.Unlock();
      }
    }

    method ExecContext(args: seq<BinaryRows.Arg>, reply: Packets, ghost zone: SessionZones.ServerZone)
      returns (r: Status, counters: (int, int))
      requires !conn.mu && conn.Balanced() && BinaryRows.ValidArgs(args)
      modifies conn`sent, conn`incoming, conn`bad, conn`mu, conn`locks, conn`unlocks, conn`location, conn`server
      ensures conn.Balanced() && !conn.mu && conn.locks == old(conn.locks) + if closed then 0 else 1
      ensures r == Fine ==> counters == ExecCounters(old(conn.incoming) + reply)
      ensures r == if closed then ServerFault
                   else if old(!conn.Usable()) then ConnFault
                   else if !BinaryRows.Sendable(args) then ServerFault
                   else DrainStatus(DrainRemaining(old(conn.incoming) + reply, conn.mode), conn.Synced(query, ZoneArgs(args)))
      ensures conn.sent ==
              old(conn.sent) + if old(Sends(args)) then [Execute(BinaryRows.ExecutePayload(stmtID, args))] else []
      ensures conn.View(false, false) ==
              if !old(Sends(args)) then old(conn.View(false, false))
              else AfterDrain(DrainRemaining(old(conn.incoming) + reply, conn.mode), conn.Synced(query, ZoneArgs(args)))
      ensures conn.oracle ==>
                conn.SessionView() ==
                if !old(Sends(args)) then old(conn.SessionView())
                else SessionZones.AfterStatement(old(conn.SessionView()), query, ZoneArgs(args),
                                                 DrainReply(DrainRemaining(old(conn.incoming) + reply, conn.mode), zone))
    {
      hide DrainRemaining, AfterDrain, SessionZones.ReadZone, SessionZones.AfterStatement, BinaryRows.Sendable,
           BinaryRows.ValidArgs, ZoneArgs, ExecCounters;
      counters := (0, 0);
      if closed {
        return ServerFault, counters;
      }
      conn.Lock();
      if conn.Usable() {
        r, counters := conn.StmtExecLocked(stmtID, query, args, reply, zone);
      } else {
        r := ConnFault;
      }
      conn.Unlock();
    }
  }

  class Rows {
    const conn: Conn
    const streaming: bool
    const ok: bool
    const format: Format
    var done: bool
    var closed: bool
    var release: bool

    constructor (conn: Conn, streaming: bool, ok: bool, format: Format)
      ensures this.conn == conn && this.streaming == streaming && this.ok == ok && this.format == format
      ensures done == !streaming && !closed && !release
    {
      this.conn, this.streaming, this.ok, this.format := conn, streaming, ok, format;
      done, closed, release := !streaming, false, false;
    }

    /** The mutex is held on behalf of these rows exactly while there may be rows to stream. */
    ghost predicate Valid()
      reads this, conn`mu, conn`bad
    {
      && (release <==> streaming && !done)
      && (release ==> conn.mu && !conn.bad)
      && (closed ==> done)
    }

    method Finish()
      requires release ==> conn.mu
      modifies this`done, this`release, conn`mu, conn`unlocks
      ensures done && !release
      ensures old(release) ==> !conn.mu && conn.unlocks == old(conn.unlocks) + 1
      ensures !old(release) ==> conn.mu == old(conn.mu) && conn.unlocks == old(conn.unlocks)
    {
      done := true;
      if release {
        conn.Unlock();
        release := false;
      }
    }

    /** What one call did to the mutex: it is released once, by the call that ends the streaming. */
    twostate predicate ReleasedAtEnd()
      reads this, conn
    {
      && Valid() && conn.locks == old(conn.locks)
      && (!old(release) ==> !release && conn.mu == old(conn.mu) && conn.unlocks == old(conn.unlocks))
      && (old(release) && release ==> conn.mu && conn.unlocks == old(conn.unlocks))
      && (old(release) && !release ==> !conn.mu && conn.unlocks == old(conn.unlocks) + 1)
    }

    /**
     Next on streaming rows. The values of a row are handed out, the end is reported, or an error: the server's, or that
     of a connection that is of no more use.
     */
    method Next() returns (r: Status, got: bool, row: Option<RowValues>)
      requires Valid()
      modifies this`done, this`release, conn`incoming, conn`bad, conn`mu, conn`unlocks
      ensures ReleasedAtEnd()
      ensures got ==> release
      ensures old(release) ==>
                match ReadNext(old(conn.incoming), ok, Decodes(format, old(conn.incoming)), conn.mode)
                case GotRow(packet, _) => r == Fine && got && row.Some? && row == Decode(format, packet)
                case Finished(_) => r == Fine && !got
                case NextErr(_) => r == ServerFault && !got
                case NextBroken => r == ConnFault && !got
      ensures !old(release) ==> r == Fine && !got
      ensures old(release) ==>
                conn.View(release, ok) ==
                AfterNext(ReadNext(old(conn.incoming), ok, Decodes(format, old(conn.incoming)), conn.mode), ok)
      ensures !old(release) ==> conn.incoming == old(conn.incoming) && conn.bad == old(conn.bad)
    {
      hide EndsRows, HasMoreResults, IsErr, DrainRemaining, Decode;
      got, row := false, None;
      if !streaming || done {
        return Fine, false, None;
      }
      var packet := conn.ReadPacket();
      if conn.bad {
        Finish();
        return ConnFault, false, None;
      }
      if EndsRows(packet, ok, conn.mode.track) {
        r := Fine;
        if HasMoreResults(packet, conn.mode.track) {
          r := conn.DrainRemainingResults();
        }
        Finish();
        return;
      }
      if IsErr(packet) {
        Finish();
        r := conn.MarkServerError(packet);
        return;
      }
      row := ParseRow(packet);
      if row.None? {
        conn.bad := true;
        Finish();
        return ConnFault, false, None;
      }
      return Fine, true, row;
    }

    /** The row parser of the protocol in use. */
    method ParseRow(packet: seq<byte>) returns (row: Option<RowValues>)
      ensures row == Decode(format, packet)
    {
      hide BinaryRows.ParseRow, TextRows.ParseRow;
      var types := TypesOf(format.columns);
      if format.binary {
        var r := BinaryRows.ParseBinaryRow(packet, types, format.loc);
        return if r.Row? then Some(BinaryValues(r.row)) else None;
      }
      var r := TextRows.ParseTextRow(packet, |format.columns|, types, format.loc);
      return if r.Ok? then Some(TextValues(r.value)) else None;
    }

    method Drain() returns (r: Status)
      requires !conn.bad
      modifies conn`incoming, conn`bad
      ensures conn.Reached(DrainOpen(old(conn.incoming), ok, conn.mode), r, false)
    {
      hide DrainRows, DrainRemaining;
      var more;
      r, more := conn.DrainRowPackets(ok);
      if r == Fine && more {
        r := conn.DrainRemainingResults();
      }
    }

    method Close() returns (r: Status)
      requires Valid()
      modifies this`done, this`release, this`closed, conn`incoming, conn`bad, conn`mu, conn`unlocks
      ensures ReleasedAtEnd() && closed && !release
      ensures old(release) ==>
                && conn.View(false, ok) == AfterDrain(DrainOpen(old(conn.incoming), ok, conn.mode), true)
                && r == DrainStatus(DrainOpen(old(conn.incoming), ok, conn.mode), true)
      ensures !old(release) ==> r == Fine
      ensures !old(release) ==> conn.incoming == old(conn.incoming) && conn.bad == old(conn.bad)
    {
      hide DrainOpen;
      r := Fine;
      if closed {
        return;
      }
      closed := true;
      if streaming && !done {
        r := Drain();
      }
      Finish();
    }

    /**
     Any sequence of calls, then Close: the mutex taken for these rows is released exactly once, and the calls hand out
     the values of the rows of the run. A call is a fetch or, for false, a close.
     */
    method Consume(calls: seq<bool>) returns (rows: seq<Option<RowValues>>)
      requires Valid() && release && conn.Balanced()
      modifies this`done, this`release, this`closed, conn`incoming, conn`bad, conn`mu, conn`unlocks
      ensures !conn.mu && conn.Balanced() && conn.unlocks == old(conn.unlocks) + 1
      ensures var ops := OpsOf(old(conn.View(true, ok)), format, calls + [false], conn.mode);
              && conn.View(false, ok) == Run(old(conn.View(true, ok)), ops, conn.mode)
              && rows == ValuesOf(format, Delivered(old(conn.View(true, ok)), ops, conn.mode))
    {
      hide Step, Given, Decode;
      rows := [];
      ghost var delivered: Packets := [];
      ghost var all, start := calls + [false], conn.View(true, ok);
      ghost var ops := OpsOf(start, format, all, conn.mode);
      for i := 0 to |calls| + 1
        invariant Valid() && conn.Balanced() && (conn.mu <==> release)
        invariant conn.unlocks == old(conn.unlocks) + if release then 0 else 1
        invariant i == |calls| + 1 ==> !release
        invariant ops[i..] == OpsOf(conn.View(release, ok), format, all[i..], conn.mode)
        invariant Run(start, ops, conn.mode) == Run(conn.View(release, ok), ops[i..], conn.mode)
        invariant Delivered(start, ops, conn.mode) == delivered + Delivered(conn.View(release, ok), ops[i..], conn.mode)
        invariant rows == ValuesOf(format, delivered)
      {
        assert all[i..][0] == all[i] && all[i..][1..] == all[i + 1..];
        assert ops[i..][0] == ops[i] && ops[i..][1..] == ops[i + 1..];
        ghost var before := conn.View(release, ok);
        ghost var given := Given(before, ops[i], conn.mode);
        if i < |calls| && calls[i] {
          var row, got := Fetch(ops[i]);
          if got {
            rows := rows + [row];
          }
        } else {
          CloseStep(ops[i]);
        }
        delivered := delivered + given;
      }
    }

    /** One fetch as an operation of a run. */
    method Fetch(ghost op: Op) returns (row: Option<RowValues>, got: bool)
      requires Valid() && (conn.mu <==> release) && op == Op.Next(Decodes(format, conn.View(release, ok).stream))
      modifies this`done, this`release, conn`incoming, conn`bad, conn`mu, conn`unlocks
      ensures ReleasedAtEnd() && (conn.mu <==> release)
      ensures conn.View(release, ok) == Step(old(conn.View(release, ok)), op, conn.mode)
      ensures var given := Given(old(conn.View(release, ok)), op, conn.mode);
              if got then |given| == 1 && row == Decode(format, given[0]) else given == []
    {
      hide ReadNext, Decode;
      var status;
      status, got, row := Next();
    }

    method CloseStep(ghost op: Op)
      requires Valid() && (conn.mu <==> release) && op == Op.Close
      modifies this`done, this`release, this`closed, conn`incoming, conn`bad, conn`mu, conn`unlocks
      ensures ReleasedAtEnd() && !release && (conn.mu <==> release)
      ensures conn.View(release, ok) == Step(old(conn.View(release, ok)), op, conn.mode)
      ensures Given(old(conn.View(release, ok)), op, conn.mode) == []
    {
      hide DrainOpen;
      var _ := Close();
    }
  }

  lemma {:induction false} OnlyOK(packet: seq<byte>)
    ensures packet == [] || packet[0] != OKHeader ==> ExecCounters([packet]) == (0, 0)
  {
  }

  /** An empty setting means UTC. */
  lemma {:induction false} EmptySetting(setting: string)
    requires forall i :: 0 <= i < |setting| ==> setting[i] == ' ' || 9 <= setting[i] as int <= 13
    ensures Resolve(setting) == Some(SessionZones.Zone(0, "+00:00"))
  {
    hide SessionZones.ParseZone;
    BlankTrims(setting);
    UtcParses();
  }

  lemma {:induction false} BlankTrims(s: string)
    requires forall i :: 0 <= i < |s| ==> s[i] == ' ' || 9 <= s[i] as int <= 13
    ensures Trim(s) == ""
  {
    if s == "" {
    } else {
      assert IsSpace(s[0]);
      BlankTrims(s[1..]);
    }
  }

  lemma {:induction false} UtcParses()
    ensures SessionZones.ParseZone("UTC") == Some(SessionZones.Zone(0, "+00:00"))
  {
    SessionZones.TightTrim("UTC");
    SessionZones.NamesParse("UTC");
  }

  /** Any other setting is parsed as it stands. */
  lemma {:induction false} OffsetSetting(minutes: int)
    requires -(12 * 60 + 59) <= minutes <= 13 * 60
    ensures Resolve(SessionZones.OffsetText(minutes)) ==
            Some(SessionZones.Zone(minutes * 60, SessionZones.OffsetText(minutes)))
  {
    hide SessionZones.OffsetText, SessionZones.ParseZone;
    SessionZones.OffsetParses(minutes);
    OffsetNotBlank(minutes);
  }

  lemma {:induction false} OffsetNotBlank(minutes: int)
    requires -(12 * 60 + 59) <= minutes <= 13 * 60
    ensures Trim(SessionZones.OffsetText(minutes)) != ""
  {
    SessionZones.TightTrim(SessionZones.OffsetText(minutes));
  }

  /** The bytes of ASCII text. */
  function BytesOf(s: string): (b: seq<byte>)
    requires forall i :: 0 <= i < |s| ==> s[i] as int < 128
  {
    seq(|s|, i requires 0 <= i < |s| => s[i] as int)
  }

  /** A prepared assignment sets the zone that its text or byte argument spells. */
  lemma {:induction false} PreparedZone(st: Statement, c: Close, minutes: int, blob: bool)
    requires ValidStatement(st) && ValidClose(c) && st.operand == Placeholder
    requires -(12 * 60 + 59) <= minutes <= 13 * 60
    ensures var text := SessionZones.OffsetText(minutes);
            && (forall i :: 0 <= i < |text| ==> text[i] as int < 128)
            && var args := [if blob then BinaryRows.Blob(BytesOf(text)) else BinaryRows.Text(BytesOf(text))];
               SessionZones.ReadZone(Text(st, c), ZoneArgs(args)) ==
               SessionZones.Known(SessionZones.Zone(minutes * 60, text))
  {
    hide SessionZones.ParseZone, Recognise, IsMutation, ValidStatement, ValidClose, TimeZoneStatements.Text;
    var text := SessionZones.OffsetText(minutes);
    SessionZones.OffsetParses(minutes);
    StatementRecognised(st, c);
    assert CharsOf(BytesOf(text)) == text;
  }
}
