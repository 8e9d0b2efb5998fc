/**
 The layers put together: the bytes of a response become its packets, and the packets of an answer become what the
 connection concludes about the time zone.
 */
module Requests {
  import opened Bytes
  import opened Frames
  import opened PacketConns
  import Cuttings
  import Responses
  import ResponseRuns
  import SessionZones
  import ZoneServers
  import Conns
  import TextRows
  import BinaryRows
  import Lenenc
  import Terminators
  import OracleTime
  import Calendar

  type Packets = seq<seq<byte>>

  // ---- from bytes to packets ----

  /** Packets sent one after the other, their sequence bytes going on. */
  function Sent(ps: Packets, seqNo: byte, cfg: Settings): (s: seq<byte>) {
    if ps == [] then []
    else Wire(ps[0], seqNo, false, [], cfg) + Sent(ps[1..], (seqNo + PacketConns.Packets(|ps[0]|, false)) % 256, cfg)
  }

  /** The next `n` packets of a plain stream. */
  function ReadAll(s: seq<byte>, n: nat, seqNo: byte): (r: Option<(Packets, seq<byte>)>)
    decreases n
  {
    if n == 0 then Some(([], s))
    else
      match ReadPlain(s, seqNo)
      case Failed(_) => None
      case Done(payload, rest, next) =>
        match ReadAll(rest, n - 1, next)
        case None => None
        case Some(more) => Some(([payload] + more.0, more.1))
  }

  /** A plain reader gets the packets that were sent, and stops behind the last. */
  lemma {:induction false} SentReadsPlain(ps: Packets, seqNo: byte, cfg: Settings, rest: seq<byte>)
    ensures ReadAll(Sent(ps, seqNo, cfg) + rest, |ps|, seqNo) == Some((ps, rest))
    decreases |ps|
  {
    hide ReadPlain, Wire, PacketConns.Packets;
    if ps == [] {
      assert Sent(ps, seqNo, cfg) + rest == rest;
    } else {
      var next := (seqNo + PacketConns.Packets(|ps[0]|, false)) % 256;
      var more := Sent(ps[1..], next, cfg) + rest;
      assert Sent(ps, seqNo, cfg) + rest == Wire(ps[0], seqNo, false, [], cfg) + more;
      PlainRoundTrip(ps[0], seqNo, [], cfg, more);
      SentReadsPlain(ps[1..], next, cfg, rest);
      assert [ps[0]] + ps[1..] == ps;
    }
  }

  /** The next `n` packets of a MySQL byte stream, sequence bytes not looked at. */
  function DeframeAll(s: seq<byte>, n: nat): (r: Option<(Packets, seq<byte>)>)
    decreases n
  {
    if n == 0 then Some(([], s))
    else
      match Deframe(s)
      case None => None
      case Some(p) =>
        match DeframeAll(p.rest, n - 1)
        case None => None
        case Some(more) => Some(([p.payload] + more.0, more.1))
  }

  lemma {:induction false} DeframeStep(chunk: seq<byte>, seqNo: byte, more: seq<byte>)
    requires |chunk| <= MaxPayload
    ensures Deframe(MySQLPacket(chunk, seqNo) + more) ==
            if |chunk| < MaxPayload then Some(Packet(chunk, more))
            else match Deframe(more)
                 case None => None
                 case Some(p) => Some(Packet(chunk + p.payload, p.rest))
  {
    hide MySQLPacket, Value;
    SmallPacket(chunk, seqNo, more);
  }

  lemma {:induction false} WireDeframes(payload: seq<byte>, seqNo: byte, cfg: Settings, rest: seq<byte>)
    ensures Deframe(Wire(payload, seqNo, false, [], cfg) + rest) == Some(Packet(payload, rest))
    decreases |payload|
  {
    hide MySQLPacket, Deframe, Wire;
    WirePlainStep(payload, seqNo, [], cfg);
    if |payload| < MaxPayload {
      DeframeStep(payload, seqNo, rest);
    } else {
      var head, tail, next := payload[..MaxPayload], payload[MaxPayload..], (seqNo + 1) % 256;
      var more := Wire(tail, next, false, [], cfg);
      assert MySQLPacket(head, seqNo) + more + rest == MySQLPacket(head, seqNo) + (more + rest);
      DeframeStep(head, seqNo, more + rest);
      WireDeframes(tail, next, cfg, rest);
      assert head + tail == payload;
    }
  }

  lemma {:induction false} SentDeframes(ps: Packets, seqNo: byte, cfg: Settings, rest: seq<byte>)
    ensures DeframeAll(Sent(ps, seqNo, cfg) + rest, |ps|) == Some((ps, rest))
    decreases |ps|
  {
    hide Deframe, Wire, PacketConns.Packets;
    if ps == [] {
      assert Sent(ps, seqNo, cfg) + rest == rest;
    } else {
      var next := (seqNo + PacketConns.Packets(|ps[0]|, false)) % 256;
      var more := Sent(ps[1..], next, cfg) + rest;
      assert Sent(ps, seqNo, cfg) + rest == Wire(ps[0], seqNo, false, [], cfg) + more;
      WireDeframes(ps[0], seqNo, cfg, more);
      SentDeframes(ps[1..], next, cfg, rest);
      assert [ps[0]] + ps[1..] == ps;
    }
  }

  /** An OB 2.0 reader gets the packets that were sent however the server cuts them into frames. */
  lemma {:induction false} SentReadsFramed(ps: Packets, seqNo: byte, pieces: seq<Cuttings.Piece>, cfg: Settings,
                                           rest: seq<byte>)
    requires MagicKnown(cfg) && Cuttings.Joined(pieces) == Sent(ps, seqNo, cfg)
    requires forall i :: 0 <= i < |pieces| ==> Cuttings.Fits(pieces[i])
    ensures DeframeAll(Bodies(Cuttings.CutWire(pieces, cfg) + rest), |ps|) == Some((ps, Bodies(rest)))
  {
    hide DeframeAll, Bodies, Cuttings.CutWire, Cuttings.Joined, Cuttings.Fits, Sent, MagicKnown;
    Cuttings.CutReads(pieces, cfg, rest);
    SentDeframes(ps, seqNo, cfg, Bodies(rest));
  }

  // ---- from packets to the time zone ----

  /** What the packets of an answer come to is its verdict. */
  lemma {:induction false} ReplyIsVerdict(chain: seq<Responses.Part>, mode: Responses.Mode, zone: SessionZones.ServerZone)
    requires Responses.ValidChain(chain, mode)
    ensures chain != []
    ensures var wire := Responses.ChainWire(chain, mode);
            && Conns.DrainReply(Responses.DrainRemaining(wire, mode), zone) ==
               ZoneServers.ReplyOf(ZoneServers.VerdictOf(chain, false), zone)
            && Conns.QueryReply(Responses.ReadQuery(wire, mode), zone) ==
               ZoneServers.ReplyOf(ZoneServers.VerdictOf(chain, true), zone)
  {
    hide Responses.DrainRemaining, Responses.ReadQuery, Responses.AllSmall, Responses.PartFails, Responses.ValidChain,
         Responses.ChainWire, ResponseRuns.PendingWire;
    var wire := Responses.ChainWire(chain, mode);
    assert wire + [] == wire;
    ResponseRuns.NonEmptyChain(chain, mode);
    Responses.ChainDrains(chain, mode, []);
    ResponseRuns.QueryOnChain(chain, mode, []);
  }

  /**
   A query sent on an idle connection whose zone is right: what the packets of the answer lead to is retired or has the
   server's zone exactly when the answer was followed.
   */
  lemma {:induction false} AnsweredPackets(s: SessionZones.Session, b: ZoneServers.Batch, args: Conns.Args,
                                           a: ZoneServers.Answer, query: bool, mode: Responses.Mode)
    requires !s.bad && SessionZones.Mirrors(s) && ZoneServers.ValidBatch(b) && ZoneServers.Readable(b, args)
    requires ZoneServers.Answers(s.server, b, args, a) && Responses.ValidChain(a.chain, mode)
    ensures a.zones != [] && a.chain != []
    ensures var wire := Responses.ChainWire(a.chain, mode);
            var reply := if query then Conns.QueryReply(Responses.ReadQuery(wire, mode), ZoneServers.FinalZone(a))
                         else Conns.DrainReply(Responses.DrainRemaining(wire, mode), ZoneServers.FinalZone(a));
            SessionZones.Mirrors(SessionZones.AfterStatement(s, ZoneServers.BatchText(b), args, reply))
            <==> ZoneServers.Followed(s.server, b, a, query)
  {
    hide Responses.DrainRemaining, Responses.ReadQuery, Responses.ValidChain, Responses.ChainWire, ZoneServers.ValidBatch,
         ZoneServers.BatchText, ZoneServers.Followed, SessionZones.AfterStatement, SessionZones.Mirrors,
         ZoneServers.VerdictOf, ZoneServers.Readable;
    ZoneServers.AnsweredWhole(s.server, b, args, a);
    ReplyIsVerdict(a.chain, mode, ZoneServers.FinalZone(a));
    ZoneServers.BatchMirrors(s, b, args, a, query);
  }

  // ---- from packets to answers ----

  /** A statement succeeds exactly when every part is within the limits, none fails, and the zone could be followed. */
  lemma {:induction false} AnswerStatus(chain: seq<Responses.Part>, mode: Responses.Mode, synced: bool)
    requires Responses.ValidChain(chain, mode)
    ensures var status := Conns.DrainStatus(Responses.DrainRemaining(Responses.ChainWire(chain, mode), mode), synced);
            && (status.Fine? <==> Responses.AllSmall(chain) && synced
                                  && forall i :: 0 <= i < |chain| ==> !Responses.PartFails(chain[i]))
            && (status.ServerFault? <==> Responses.AllSmall(chain)
                                         && exists i :: 0 <= i < |chain| && Responses.PartFails(chain[i]))
  {
    hide Responses.DrainRemaining, Responses.AllSmall, Responses.PartFails, Responses.ValidChain, Responses.ChainWire;
    var wire := Responses.ChainWire(chain, mode);
    assert wire + [] == wire;
    ResponseRuns.NonEmptyChain(chain, mode);
    ResponseRuns.OnlyLastFails(chain, mode);
    Responses.ChainDrains(chain, mode, []);
  }

  /** The counters of a statement are those of the OK that answers it. */
  lemma {:induction false} AnswerCounters(ok: Terminators.OK, more: seq<Responses.Part>, mode: Responses.Mode)
    requires Terminators.ValidOK(ok, mode.track)
    ensures Responses.ExecCounters(Responses.ChainWire([Responses.OKPart(ok)] + more, mode)) ==
            (Terminators.Signed64(ok.affected), Terminators.Signed64(ok.lastID))
  {
    hide Terminators.HandleOK, Terminators.OKBytes, Terminators.ValidOK, Terminators.Signed64, Responses.ChainWire;
    Terminators.OKRecognised(Terminators.OKHeader, ok, mode.track);
    var chain := [Responses.OKPart(ok)] + more;
    ResponseRuns.ChainWireSplit(chain, mode);
    assert chain[0] == Responses.OKPart(ok);
  }

  /** The columns of a result set are those its definitions spell. */
  lemma {:induction false} AnswerColumns(chain: seq<Responses.Part>, mode: Responses.Mode)
    requires Responses.ValidChain(chain, mode) && chain != [] && chain[0].SetPart?
    ensures var columns := Responses.QueryColumns(Responses.ChainWire(chain, mode));
            && |columns| == |chain[0].columns|
            && forall i :: 0 <= i < |columns| ==> Some(columns[i]) == Responses.ParseColumn(chain[0].columns[i])
  {
    hide Responses.ParseColumn, Responses.ChainWire, Responses.MetaWire, Responses.RowsWire, Lenenc.ReadInt, Lenenc.PutInt,
         Responses.ValidEnd, Responses.ValidRows;
    var p, s := chain[0], Responses.ChainWire(chain, mode);
    ResponseRuns.ChainWireSplit(chain, mode);
    Responses.CountRead(|p.columns|);
    assert s[0] == Responses.FirstPacket(p, mode);
    forall i | 0 <= i < |p.columns|
      ensures s[1 + i] == p.columns[i] && Responses.IsColumnDefinition(p.columns[i])
    {
      hide Responses.FirstPacket, Responses.QueryColumns;
    }
  }

  // ---- from packets to rows ----

  predicate AllDecode(f: Conns.Format, rows: Packets) {
    forall i :: 0 <= i < |rows| ==> Conns.Decode(f, rows[i]).Some?
  }

  function Trues(n: nat): (calls: seq<bool>)
    ensures |calls| == n
  {
    seq(n, i => true)
  }

  /** Fetching rows that parse is a run of fetches that decode. */
  lemma {:induction false} FetchesDecode(st: ResponseRuns.State, p: ResponseRuns.Pending, f: Conns.Format, n: nat,
                                         mode: Responses.Mode)
    requires ResponseRuns.Streams(st, p, mode) && n <= |p.rows| && AllDecode(f, p.rows)
    ensures Conns.OpsOf(st, f, Trues(n), mode) == ResponseRuns.Fetches(n)
    decreases n
  {
    hide Conns.Decode;
    if n > 0 {
      var op, q := ResponseRuns.Next(true), p.(rows := p.rows[1..]);
      assert Trues(n)[1..] == Trues(n - 1) && [op] + ResponseRuns.Fetches(n - 1) == ResponseRuns.Fetches(n);
      FirstInStream(st, p, mode);
      hide ResponseRuns.Streams, ResponseRuns.Step;
      ResponseRuns.CursorStep(st, p, op, mode);
      assert AllDecode(f, q.rows);
      FetchesDecode(ResponseRuns.Step(st, op, mode), q, f, n - 1, mode);
    }
  }

  lemma {:induction false} FirstInStream(st: ResponseRuns.State, p: ResponseRuns.Pending, mode: Responses.Mode)
    requires ResponseRuns.Streams(st, p, mode) && p.rows != []
    ensures st.stream != [] && st.stream[0] == p.rows[0]
  {
    hide ResponseRuns.ValidPending;
  }

  /** So many fetches hand out the values of so many rows that the server sent, in order. */
  lemma {:induction false} FetchedValues(st: ResponseRuns.State, p: ResponseRuns.Pending, f: Conns.Format, n: nat,
                                         mode: Responses.Mode)
    requires ResponseRuns.Streams(st, p, mode) && n <= |p.rows| && AllDecode(f, p.rows)
    ensures var ops := Conns.OpsOf(st, f, Trues(n), mode);
            && Conns.ValuesOf(f, ResponseRuns.Delivered(st, ops, mode)) == Conns.ValuesOf(f, p.rows[..n])
            && ResponseRuns.Streams(ResponseRuns.Run(st, ops, mode), p.(rows := p.rows[n..]), mode)
  {
    hide ResponseRuns.Streams, Conns.Decode, ResponseRuns.Delivered, ResponseRuns.Run;
    FetchesDecode(st, p, f, n, mode);
    ResponseRuns.FetchesDeliver(st, p, n, mode);
  }

  /** The values of a text row are its cells, timestamps decoded. */
  lemma {:induction false} TextRowDecodes(f: Conns.Format, cells: seq<TextRows.Cell>)
    requires !f.binary && |cells| == |f.columns| && TextRows.ValidCells(cells)
    ensures Conns.Decode(f, TextRows.EncodeRow(cells)) ==
            match TextRows.Converted(cells, 0, Conns.TypesOf(f.columns), f.loc)
            case Err(_) => None
            case Ok(row) => Some(Conns.TextValues(row))
  {
    hide TextRows.EncodeRow, TextRows.ParseRow, TextRows.Converted;
    var s := TextRows.EncodeRow(cells);
    assert s + [] == s;
    TextRows.RowRoundTrip(cells, 0, Conns.TypesOf(f.columns), f.loc, []);
  }

  /** The values of a binary row are its values, as they are delivered. */
  lemma {:induction false} BinaryRowDecodes(f: Conns.Format, row: BinaryRows.Row)
    requires f.binary && BinaryRows.ValidRow(row, Conns.TypesOf(f.columns))
    ensures Conns.Decode(f, BinaryRows.PutRow(row, Conns.TypesOf(f.columns))) ==
            match BinaryRows.DeliveredRow(row, Conns.TypesOf(f.columns), 0, f.loc)
            case Row(values) => Some(Conns.BinaryValues(values))
            case _ => None
  {
    hide BinaryRows.PutRow, BinaryRows.ParseRow, BinaryRows.DeliveredRow, BinaryRows.Fits;
    var types := Conns.TypesOf(f.columns);
    var s := BinaryRows.PutRow(row, types);
    assert s + [] == s;
    BinaryRows.RowRoundTrip(row, types, [], f.loc);
  }

  /**
   In a session whose zone text the driver read, a timestamp with local time zone is the instant at which a clock that
   many minutes away from UTC shows it.
   */
  lemma {:induction false} SessionInstant(conn: Conns.Conn, minutes: int, local: Calendar.Civil, utc: Calendar.Civil,
                                          scale: int)
    requires -(12 * 60 + 59) <= minutes <= 13 * 60 && OracleTime.Honest(conn.date)
    requires var z := SessionZones.ParseZone(SessionZones.OffsetText(minutes));
             z.Some? && conn.location == Some(z.value.offset)
    requires OracleTime.Representable(local, scale) && OracleTime.Representable(utc, scale)
    requires OracleTime.Shows(local, minutes, utc)
    ensures OracleTime.ParseOracleTime(OracleTime.CivilBytes(local, scale), 0xc9, conn.Here().session, conn.Here().date)
            == Ok(Calendar.Nanos(utc))
  {
    hide OracleTime.Honest, SessionZones.ParseZone, SessionZones.OffsetText, OracleTime.Representable, OracleTime.Shows,
         OracleTime.ParseOracleTime, OracleTime.CivilBytes;
    SessionZones.OffsetParses(minutes);
    OracleTime.SameLocally(local, utc, scale, minutes, conn.date);
  }
}
