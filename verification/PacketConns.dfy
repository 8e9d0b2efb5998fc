/**
 The packet connection: splits payloads into MySQL packets, optionally wraps every packet in an OB 2.0 frame, and
 reassembles packets on the way in. The socket is a pair of byte streams: `input` is what is still to be received,
 `output` what has been sent.
 */
module PacketConns {
  import opened Bytes
  import opened BitStrings
  import opened Checksums
  import opened Frames

  // ---- what the plain reader and writer do to a stream ----

  datatype PlainRead = Done(payload: seq<byte>, rest: seq<byte>, seqNo: byte) | Failed(error: Error)

  function ReadPlain(s: seq<byte>, seqNo: byte): (r: PlainRead)
    decreases |s|
  {
    if |s| < 4 then Failed(UnexpectedEOF)
    else if s[3] != seqNo then Failed(Sequence)
    else
      var end := 4 + Value(s[0..3]);
      var next := (seqNo + 1) % 256;
      if |s| < end then Failed(UnexpectedEOF)
      else if end - 4 < MaxPayload then Done(s[4..end], s[end..], next)
      else Prepend(s[4..end], ReadPlain(s[end..], next))
  }

  function Prepend(chunk: seq<byte>, r: PlainRead): PlainRead {
    match r
    case Done(payload, rest, seqNo) => Done(chunk + payload, rest, seqNo)
    case Failed(_) => r
  }

  // ---- what the writer does to a stream ----

  function Limit(ob20: bool): (n: nat)
    ensures n > 0
  {
    if ob20 then MaxOB20Chunk else MaxPayload
  }

  /** One packet: bare, or in a frame that also carries the pending extra info. */
  function ChunkWire(chunk: seq<byte>, seqNo: byte, ob20: bool, infos: seq<ExtraInfo>, cfg: Settings): (s: seq<byte>) {
    if ob20 then FrameBytes(chunk, seqNo, infos, cfg) else MySQLPacket(chunk, seqNo)
  }

  /** A payload of any length; an exact multiple of the limit is closed by an empty packet without extra info. */
  function Wire(payload: seq<byte>, seqNo: byte, ob20: bool, infos: seq<ExtraInfo>, cfg: Settings): (s: seq<byte>)
    decreases |payload|
  {
    var n, next := Limit(ob20), (seqNo + 1) % 256;
    if |payload| < n then ChunkWire(payload, seqNo, ob20, infos, cfg)
    else
      ChunkWire(payload[..n], seqNo, ob20, infos, cfg)
      + (if |payload| == n then ChunkWire([], next, ob20, [], cfg)
         else Wire(payload[n..], next, ob20, infos, cfg))
  }

  lemma {:induction false} WireUnfold(sent: seq<byte>, payload: seq<byte>, seqNo: byte, ob20: bool,
                                      infos: seq<ExtraInfo>, cfg: Settings)
    ensures var n, next := Limit(ob20), (seqNo + 1) % 256;
            sent + Wire(payload, seqNo, ob20, infos, cfg) ==
            if |payload| < n then sent + ChunkWire(payload, seqNo, ob20, infos, cfg)
            else
              (sent + ChunkWire(payload[..n], seqNo, ob20, infos, cfg))
              + (if |payload| == n then ChunkWire([], next, ob20, [], cfg)
                 else Wire(payload[n..], next, ob20, infos, cfg))
  {
    hide ChunkWire;
  }

  /** How many packets a payload of `n` bytes takes. */
  function Packets(n: nat, ob20: bool): (k: nat)
    ensures k > 0
  {
    n / (if ob20 then 16_777_183 else 16_777_215) + 1
  }

  lemma {:induction false} PacketsStep(n: nat, ob20: bool)
    ensures n < Limit(ob20) ==> Packets(n, ob20) == 1
    ensures n >= Limit(ob20) ==> Packets(n, ob20) == 1 + Packets(n - Limit(ob20), ob20)
  {
  }

  class PacketConn {
    var input: seq<byte>
    var output: seq<byte>
    var seqNo: byte
    var ob20: bool
    var magic: nat
    var connectionID: nat
    var requestID: nat
    var extraInfos: seq<ExtraInfo>
    var mysqlBuf: seq<byte>
    var newExtraInfo: bool
    var checksum: bool
    var crc16: array<Bits>
    var crc32: array<Bits>

    constructor (input: seq<byte>)
      ensures Valid() && fresh(crc16) && fresh(crc32)
      ensures this.input == input && output == [] && mysqlBuf == [] && extraInfos == []
      ensures seqNo == 0 && requestID == 0 && !ob20
    {
      var table16 := BuildTable(Crc16Poly);
      var table32 := BuildTable(Crc32Poly);
      crc16, crc32 := table16, table32;
      this.input, output, mysqlBuf, extraInfos := input, [], [], [];
      seqNo, requestID, connectionID, magic := 0, 0, 0, 0;
      ob20, newExtraInfo, checksum := false, false, false;
    }

    ghost predicate Valid()
      reads this`crc16, this`crc32, crc16, crc32
    {
      IsTable(crc16[..], Crc16Poly) && IsTable(crc32[..], Crc32Poly)
    }

    /** The MySQL byte stream that an OB 2.0 reader still has in front of it, however it is cut into frames. */
    ghost function Ahead(): seq<byte>
      reads this
    {
      mysqlBuf + Bodies(input)
    }

    function Cfg(): Settings
      reads this
    {
      Settings(magic, connectionID, requestID, newExtraInfo, checksum)
    }

    method EnableOB20(connectionID: nat, magic: nat, newExtraInfo: bool, disableChecksum: bool)
      modifies this`ob20, this`magic, this`connectionID, this`newExtraInfo, this`checksum
      ensures ob20 && Cfg() == Settings(magic, connectionID, old(requestID), newExtraInfo, !disableChecksum)
    {
      ob20 := true;
      this.magic := magic;
      this.connectionID := connectionID;
      this.newExtraInfo := newExtraInfo;
      checksum := !disableChecksum;
    }

    method ResetSequence()
      modifies this`seqNo
      ensures seqNo == 0
    {
      seqNo := 0;
    }

    /** The next request id, in 32 bits. */
    method NextRequest()
      modifies this`requestID
      ensures requestID == (old(requestID) + 1) % 0x1_0000_0000
    {
      requestID := (requestID + 1) % 0x1_0000_0000;
    }

    method AddExtraInfo(typ: nat, data: seq<byte>)
      modifies this`extraInfos
      ensures extraInfos == old(extraInfos) + [ExtraInfo(typ, data)]
    {
      extraInfos := extraInfos + [ExtraInfo(typ, data)];
    }

    method ClearExtraInfo()
      modifies this`extraInfos
      ensures extraInfos == []
    {
      extraInfos := [];
    }

    /** io.ReadFull: all `n` bytes, or an error that leaves nothing to read. */
    method ReadFull(n: nat) returns (ok: bool, data: seq<byte>)
      modifies this`input
      ensures ok <==> n <= |old(input)|
      ensures ok ==> data == old(input)[..n] && input == old(input)[n..]
    {
      if n <= |input| {
        ok, data, input := true, input[..n], input[n..];
      } else {
        ok, data, input := false, [], [];
      }
    }

    /** OB20Header.Decode with the table-driven checksum. */
    method Decode(buf: seq<byte>) returns (r: Option<Header>)
      requires Valid()
      ensures r == DecodeHeader(buf)
    {
      hide ParseFields, Value, Radix, Pack, Remainder, Divide, MessageBits, PolyOf;
      if |buf| < TotalHeaderLen {
        return None;
      }
      var h := ParseFields(buf);
      if h.magic != OB20Magic || h.version != OB20Version {
        return None;
      }
      if buf[29..31] != ZeroBytes(2) {
        var crc := Checksum(crc16, buf[..29], Crc16Poly);
        return if buf[29..31] == Pack(crc) then Some(h) else None;
      }
      return Some(h);
    }

    /** One frame from the socket: header, payload and trailer are three reads, each checked before the next. */
    method ReadFrameBody() returns (r: Result<seq<byte>>)
      requires Valid()
      modifies this`input
      ensures match ReadFrame(old(input))
              case Frame(body, rest) => r == Ok(body) && input == rest
              case Stop(e) => r == Err(e)
    {
      var ok, header := ReadFull(TotalHeaderLen);
      if !ok {
        return Err(UnexpectedEOF);
      }
      var decoded := Decode(header);
      if decoded.None? {
        return Err(BadFrame);
      }
      var h := decoded.value;
      r := ReadRestOfFrame(h);
    }

    method ReadRestOfFrame(h: Header) returns (r: Result<seq<byte>>)
      requires Valid()
      modifies this`input
      ensures match ReadAfterHeader(Some(h), old(input))
              case Frame(body, rest) => r == Ok(body) && input == rest
              case Stop(e) => r == Err(e)
    {
      hide SkipExtraInfo, Radix, Unwrap, Valid;
      if h.compressLength != (OB20HeaderLen + h.payloadLen + TailLen) % Radix(4) || h.uncompressLength != 0 {
        return Err(BadFrame);
      }
      var gotPayload, payload := ReadFull(h.payloadLen);
      if !gotPayload {
        return Err(UnexpectedEOF);
      }
      var gotTrailer, trailer := ReadFull(TailLen);
      if !gotTrailer {
        return Err(UnexpectedEOF);
      }
      assert payload == old(input)[..h.payloadLen] && trailer == old(input)[h.payloadLen..h.payloadLen + TailLen];
      assert input == old(input)[h.payloadLen + TailLen..];
      r := CheckPayload(h.flag, payload, trailer);
    }

    method CheckPayload(flag: nat, payload: seq<byte>, trailer: seq<byte>) returns (r: Result<seq<byte>>)
      requires Valid()
      ensures r == Unwrap(flag, payload, trailer)
    {
      hide SkipExtraInfo, Pack, Remainder, Divide, MessageBits, PolyOf;
      if trailer != ZeroBytes(4) {
        var crc := Checksum(crc32, payload, Crc32Poly);
        if trailer != Pack(crc) {
          return Err(BadFrame);
        }
      }
      return SkipExtraInfo(flag, payload);
    }

    /**
     Reading in OB 2.0 mode depends only on the MySQL bytes ahead, not on where frames begin and end: it yields the
     packet at their front and leaves the rest ahead, or, when they hold no whole packet, the error that ends them.
     No frame is read while the buffer already holds a packet.
     */
    method ReadPacketOB20() returns (r: Result<seq<byte>>)
      requires Valid()
      modifies this`input, this`mysqlBuf
      ensures match Deframe(old(Ahead()))
              case Some(p) => r == Ok(p.payload) && Ahead() == p.rest && Failure(input) == old(Failure(input))
              case None => r == Err(old(Failure(input)))
      ensures Deframe(old(mysqlBuf)).Some? ==> input == old(input)
    {
      hide ReadFrame, Value, Deframe, Taken, Valid, Bodies, Failure;
      var out: seq<byte> := [];
      NothingTaken(old(Ahead()));
      NothingTaken(old(mysqlBuf));
      while true
        invariant Taken(old(Ahead()), out, Ahead())
        invariant Failure(input) == old(Failure(input))
        invariant if input == old(input) then Taken(old(mysqlBuf), out, mysqlBuf) else Deframe(old(mysqlBuf)).None?
        decreases |input|, |mysqlBuf|
      {
        if |mysqlBuf| >= 4 {
          var mysqlLen := Value(mysqlBuf[0..3]);
          if |mysqlBuf| >= 4 + mysqlLen {
            TakePacket(old(Ahead()), out, mysqlBuf, Bodies(input));
            if input == old(input) {
              assert mysqlBuf + [] == mysqlBuf;
              TakePacket(old(mysqlBuf), out, mysqlBuf, []);
            }
            out := out + mysqlBuf[4..4 + mysqlLen];
            mysqlBuf := mysqlBuf[4 + mysqlLen..];
            assert mysqlBuf + [] == mysqlBuf;
            if mysqlLen < MaxPayload {
              return Ok(out);
            }
            continue;
          }
        }
        NoPacket(old(Ahead()), out, mysqlBuf);
        NoPacket(old(mysqlBuf), out, mysqlBuf);
        FrameFirst(mysqlBuf, input);
        r := ReadFrameBody();
        if r.Err? {
          return;
        }
        mysqlBuf := mysqlBuf + r.value;
      }
    }

    /** Reading in plain mode: header, sequence check, payload, until a chunk is shorter than 2^24 - 1. */
    method ReadPacketPlain() returns (r: Result<seq<byte>>)
      modifies this`input, this`seqNo
      ensures match ReadPlain(old(input), old(seqNo))
              case Done(payload, rest, next) => r == Ok(payload) && input == rest && seqNo == next
              case Failed(e) => r == Err(e)
    {
      hide Value, ReadPlain, Prepend;
      var out: seq<byte> := [];
      PrependNothing(ReadPlain(input, seqNo));
      while true
        invariant ReadPlain(old(input), old(seqNo)) == Prepend(out, ReadPlain(input, seqNo))
        decreases |input|
      {
        PlainUnfold(out, input, seqNo);
        ghost var s := input;
        var gotHeader, header := ReadFull(4);
        if !gotHeader {
          return Err(UnexpectedEOF);
        }
        assert header[0..3] == s[0..3];
        var payloadLen := Value(header[0..3]);
        if header[3] != seqNo {
          return Err(Sequence);
        }
        seqNo := (seqNo + 1) % 256;
        var gotPayload, payload := ReadFull(payloadLen);
        if !gotPayload {
          return Err(UnexpectedEOF);
        }
        assert payload == s[4..4 + payloadLen] && input == s[4 + payloadLen..];
        out := out + payload;
        if payloadLen < MaxPayload {
          return Ok(out);
        }
      }
    }

    method ReadPacket() returns (r: Result<seq<byte>>)
      requires Valid()
      modifies this`input, this`mysqlBuf, this`seqNo
      ensures Valid()
      ensures old(ob20) ==>
                match Deframe(old(Ahead()))
                case Some(p) => r == Ok(p.payload) && Ahead() == p.rest && Failure(input) == old(Failure(input))
                case None => r == Err(old(Failure(input)))
      ensures old(ob20) ==> seqNo == old(seqNo) && (Deframe(old(mysqlBuf)).Some? ==> input == old(input))
      ensures !old(ob20) ==>
                mysqlBuf == old(mysqlBuf) &&
                match ReadPlain(old(input), old(seqNo))
                case Done(payload, rest, next) => r == Ok(payload) && input == rest && seqNo == next
                case Failed(e) => r == Err(e)
    {
      hide Deframe, ReadPlain, Bodies, Failure, Valid;
      if ob20 {
        r := ReadPacketOB20();
      } else {
        r := ReadPacketPlain();
      }
    }

    /** The total length of the pending extra-info entries. */
    method ExtraLen() returns (n: nat)
      ensures n == |ExtraBytes(extraInfos)|
    {
      n := 0;
      for i := 0 to |extraInfos|
        invariant n + |ExtraBytes(extraInfos[i..])| == |ExtraBytes(extraInfos)|
      {
        n := n + 6 + |extraInfos[i].data|;
        assert extraInfos[i..][1..] == extraInfos[i + 1..];
      }
    }

    /** A MySQL packet, preceded in OB 2.0 mode by the extra-info block when there is one. */
    method BuildPayload(chunk: seq<byte>) returns (buf: array<byte>)
      ensures fresh(buf)
      ensures buf[..] == if ob20 then FramePayload(chunk, seqNo, extraInfos) else MySQLPacket(chunk, seqNo)
    {
      hide LittleEndian, ExtraBytes, MySQLPacket;
      var extraLen := ExtraLen();
      ExtraBytesEmpty(extraInfos);
      if ob20 && extraLen > 0 {
        buf := new byte[4 + extraLen + 4 + |chunk|];
        PutBytes(buf, 0, LittleEndian(extraLen, 4));
        var mysqlPos := PutExtraInfos(buf);
        PutPacket(buf, mysqlPos, chunk);
      } else {
        buf := new byte[4 + |chunk|];
        PutPacket(buf, 0, chunk);
      }
    }

    method PutPacket(buf: array<byte>, at: nat, chunk: seq<byte>)
      requires at + 4 + |chunk| == buf.Length
      modifies buf
      ensures buf[..] == old(buf[..at]) + MySQLPacket(chunk, seqNo)
    {
      hide LittleEndian;
      PutBytes(buf, at, LittleEndian(|chunk|, 3));
      PutBytes(buf, at + 3, [seqNo]);
      PutBytes(buf, at + 4, chunk);
      assert buf[..] == buf[..at + 4 + |chunk|];
    }

    method PutExtraInfos(buf: array<byte>) returns (pos: nat)
      requires 4 + |ExtraBytes(extraInfos)| <= buf.Length
      modifies buf
      ensures pos == 4 + |ExtraBytes(extraInfos)|
      ensures buf[..pos] == old(buf[..4]) + ExtraBytes(extraInfos)
    {
      hide LittleEndian;
      pos := 4;
      for i := 0 to |extraInfos|
        invariant 4 <= pos && pos + |ExtraBytes(extraInfos[i..])| == 4 + |ExtraBytes(extraInfos)|
        invariant buf[..pos] + ExtraBytes(extraInfos[i..]) == old(buf[..4]) + ExtraBytes(extraInfos)
      {
        assert extraInfos[i..][1..] == extraInfos[i + 1..];
        pos := PutExtraInfo(buf, pos, extraInfos[i]);
      }
    }

    method PutExtraInfo(buf: array<byte>, at: nat, info: ExtraInfo) returns (pos: nat)
      requires at + 6 + |info.data| <= buf.Length
      modifies buf
      ensures pos == at + 6 + |info.data|
      ensures buf[..pos] == old(buf[..at]) + (LittleEndian(info.typ, 2) + LittleEndian(|info.data|, 4) + info.data)
    {
      hide LittleEndian;
      PutBytes(buf, at, LittleEndian(info.typ, 2));
      PutBytes(buf, at + 2, LittleEndian(|info.data|, 4));
      PutBytes(buf, at + 6, info.data);
      pos := at + 6 + |info.data|;
    }

    /** Wraps a payload in a frame and sends header, payload and trailer. */
    method WriteFrame(payload: seq<byte>, packetSeq: byte, extra: bool)
      requires Valid()
      modifies this`output
      ensures output == old(output) + Sealed(payload, packetSeq, extra, Cfg())
    {
      hide EncodeHeader, HeaderFields, Pack, Remainder, Divide, MessageBits, PolyOf, Valid;
      var header := new byte[TotalHeaderLen];
      SealHeader(FrameHeader(|payload|, packetSeq, extra, Cfg()), header);
      output := output + header[..];
      output := output + payload;
      var trailer := ZeroBytes(4);
      if checksum {
        var crc := TrailerChecksum(payload);
        trailer := crc;
      }
      output := output + trailer;
    }

    method TrailerChecksum(payload: seq<byte>) returns (crc: seq<byte>)
      requires Valid()
      ensures crc == PayloadChecksum(payload)
    {
      hide Pack, Remainder, Divide, MessageBits, PolyOf;
      var r := Checksum(crc32, payload, Crc32Poly);
      crc := Pack(r);
    }

    method SealHeader(h: Header, header: array<byte>)
      requires Valid() && header.Length == TotalHeaderLen
      modifies header
      ensures header[..] == EncodeHeader(h, checksum)
    {
      hide HeaderFields, Pack, Remainder, Divide, MessageBits, PolyOf;
      EncodeHeaderInto(h, header, crc16);
      assert header[..] == header[..TotalHeaderLen];
      if !checksum {
        header[TotalHeaderLen - 2], header[TotalHeaderLen - 1] := 0, 0;
      }
    }

    method WriteEmptyContinuation()
      requires Valid()
      modifies this`output, this`seqNo
      ensures output == old(output) + ChunkWire([], old(seqNo), ob20, [], Cfg())
      ensures seqNo == (old(seqNo) + 1) % 256
    {
      hide EncodeHeader, PayloadChecksum, Valid;
      var mysqlHeader := [0, 0, 0, seqNo];
      assert mysqlHeader == MySQLPacket([], seqNo);
      seqNo := (seqNo + 1) % 256;
      if ob20 {
        WriteFrame(mysqlHeader, mysqlHeader[3], false);
      } else {
        output := output + mysqlHeader;
      }
    }

    method WriteChunk(chunk: seq<byte>)
      requires Valid()
      modifies this`output, this`seqNo
      ensures output == old(output) + ChunkWire(chunk, old(seqNo), ob20, extraInfos, Cfg())
      ensures seqNo == (old(seqNo) + 1) % 256
    {
      hide FramePayload, Sealed, ExtraBytes, MySQLPacket, Valid;
      var payloadBuf := BuildPayload(chunk);
      seqNo := (seqNo + 1) % 256;
      if ob20 {
        WriteFrame(payloadBuf[..], (seqNo + 255) % 256, |extraInfos| > 0);
      } else {
        output := output + payloadBuf[..];
      }
    }

    /** Sends a payload of any length. */
    method WritePacket(payload: seq<byte>)
      requires Valid()
      modifies this`output, this`seqNo
      ensures output == old(output) + Wire(payload, old(seqNo), ob20, extraInfos, Cfg())
      ensures seqNo == (old(seqNo) + Packets(|payload|, ob20)) % 256
    {
      hide Valid, ChunkWire, Packets, Wire;
      var left := payload;
      while true
        invariant left == payload || |left| > 0
        invariant output + Wire(left, seqNo, ob20, extraInfos, Cfg()) ==
                  old(output) + Wire(payload, old(seqNo), ob20, extraInfos, Cfg())
        invariant (seqNo + Packets(|left|, ob20)) % 256 == (old(seqNo) + Packets(|payload|, ob20)) % 256
        decreases |left|
      {
        var chunkLen, chunkLimit := |left|, Limit(ob20);
        if chunkLen > chunkLimit {
          chunkLen := chunkLimit;
        }
        PacketsStep(|left|, ob20);
        WireUnfold(output, left, seqNo, ob20, extraInfos, Cfg());
        assert chunkLen == |left| ==> left[..chunkLen] == left;
        WriteChunk(left[..chunkLen]);
        left := left[chunkLen..];
        if chunkLen < chunkLimit {
          return;
        }
        if |left| == 0 {
          PacketsStep(0, ob20);
          WriteEmptyContinuation();
          return;
        }
      }
    }
  }

  lemma {:induction false} ExtraBytesEmpty(infos: seq<ExtraInfo>)
    ensures |ExtraBytes(infos)| == 0 <==> infos == []
  {
  }

  /** The first frame of a stream, or the error that ends it, behind what is buffered. */
  lemma {:induction false} FrameFirst(buf: seq<byte>, s: seq<byte>)
    ensures match ReadFrame(s)
            case Stop(e) => buf + Bodies(s) == buf && Failure(s) == e
            case Frame(body, rest) => buf + Bodies(s) == buf + body + Bodies(rest) && Failure(s) == Failure(rest)
  {
    hide ReadFrame;
  }

  /** `out` has been taken off the front of the packet at the head of `whole`, and `left` is what follows it. */
  ghost predicate Taken(whole: seq<byte>, out: seq<byte>, left: seq<byte>) {
    Deframe(whole) ==
    match Deframe(left)
    case None => None
    case Some(p) => Some(Packet(out + p.payload, p.rest))
  }

  lemma {:induction false} NothingTaken(whole: seq<byte>)
    ensures Taken(whole, [], whole)
  {
    if Deframe(whole).Some? {
      assert [] + Deframe(whole).value.payload == Deframe(whole).value.payload;
    }
  }

  lemma {:induction false} TakePacket(whole: seq<byte>, out: seq<byte>, buf: seq<byte>, more: seq<byte>)
    requires |buf| >= 4 && |buf| >= 4 + Value(buf[0..3])
    requires Taken(whole, out, buf + more)
    ensures var end := 4 + Value(buf[0..3]);
            if end - 4 < MaxPayload then Deframe(whole) == Some(Packet(out + buf[4..end], buf[end..] + more))
            else Taken(whole, out + buf[4..end], buf[end..] + more)
  {
    hide Value;
    var s, end := buf + more, 4 + Value(buf[0..3]);
    assert s[0..3] == buf[0..3] && s[4..end] == buf[4..end] && s[end..] == buf[end..] + more;
    if end - 4 >= MaxPayload && Deframe(s[end..]).Some? {
      assert out + (buf[4..end] + Deframe(s[end..]).value.payload) ==
             out + buf[4..end] + Deframe(s[end..]).value.payload;
    }
  }

  lemma {:induction false} NoPacket(whole: seq<byte>, out: seq<byte>, buf: seq<byte>)
    requires |buf| < 4 || |buf| < 4 + Value(buf[0..3])
    ensures Taken(whole, out, buf) ==> Deframe(whole).None?
  {
  }

  lemma {:induction false} PrependNothing(r: PlainRead)
    ensures Prepend([], r) == r
  {
    if r.Done? {
      assert [] + r.payload == r.payload;
    }
  }

  lemma {:induction false} PlainUnfold(out: seq<byte>, s: seq<byte>, seqNo: byte)
    ensures Prepend(out, ReadPlain(s, seqNo)) ==
            if |s| < 4 then Failed(UnexpectedEOF)
            else if s[3] != seqNo then Failed(Sequence)
            else if |s| < 4 + Value(s[0..3]) then Failed(UnexpectedEOF)
            else
              var end, next := 4 + Value(s[0..3]), (seqNo + 1) % 256;
              if end - 4 < MaxPayload then Done(out + s[4..end], s[end..], next)
              else Prepend(out + s[4..end], ReadPlain(s[end..], next))
  {
    hide Value;
    if |s| >= 4 && s[3] == seqNo && |s| >= 4 + Value(s[0..3]) {
      var end := 4 + Value(s[0..3]);
      PrependTwice(out, s[4..end], ReadPlain(s[end..], (seqNo + 1) % 256));
    }
  }

  lemma {:induction false} PrependTwice(a: seq<byte>, b: seq<byte>, r: PlainRead)
    ensures Prepend(a, Prepend(b, r)) == Prepend(a + b, r)
  {
    if r.Done? {
      assert a + (b + r.payload) == a + b + r.payload;
    }
  }

  // ---- plain framing: what is read is what was written ----

  lemma {:induction false} SmallPacket(chunk: seq<byte>, seqNo: byte, rest: seq<byte>)
    requires |chunk| <= MaxPayload
    ensures var s := MySQLPacket(chunk, seqNo) + rest;
            && |s| >= 4 && Value(s[0..3]) == |chunk| && s[3] == seqNo
            && s[4..4 + |chunk|] == chunk && s[4 + |chunk|..] == rest
  {
    hide LittleEndian, Value, Radix;
    ValueOfLittleEndian(|chunk|, 3);
    RadixValues();
    var s := MySQLPacket(chunk, seqNo) + rest;
    assert s[0..3] == LittleEndian(|chunk|, 3);
  }

  lemma {:induction false} ReadPlainStep(chunk: seq<byte>, seqNo: byte, more: seq<byte>)
    requires |chunk| <= MaxPayload
    ensures ReadPlain(MySQLPacket(chunk, seqNo) + more, seqNo) ==
            if |chunk| < MaxPayload then Done(chunk, more, (seqNo + 1) % 256)
            else Prepend(chunk, ReadPlain(more, (seqNo + 1) % 256))
  {
    hide MySQLPacket, Value;
    SmallPacket(chunk, seqNo, more);
  }

  lemma {:induction false} WirePlainStep(payload: seq<byte>, seqNo: byte, infos: seq<ExtraInfo>, cfg: Settings)
    ensures Wire(payload, seqNo, false, infos, cfg) ==
            if |payload| < MaxPayload then MySQLPacket(payload, seqNo)
            else MySQLPacket(payload[..MaxPayload], seqNo)
                 + Wire(payload[MaxPayload..], (seqNo + 1) % 256, false, infos, cfg)
  {
    hide MySQLPacket;
    if |payload| == MaxPayload {
      assert payload[MaxPayload..] == [];
    }
  }

  /** A payload of any length reads back unchanged, and reader and writer stay in step modulo 256. */
  lemma {:induction false} PlainRoundTrip(payload: seq<byte>, seqNo: byte, infos: seq<ExtraInfo>, cfg: Settings,
                                          rest: seq<byte>)
    ensures ReadPlain(Wire(payload, seqNo, false, infos, cfg) + rest, seqNo) ==
            Done(payload, rest, (seqNo + Packets(|payload|, false)) % 256)
    decreases |payload|
  {
    hide MySQLPacket, Packets, ReadPlain, Wire;
    PacketsStep(|payload|, false);
    WirePlainStep(payload, seqNo, infos, cfg);
    if |payload| < MaxPayload {
      ReadPlainStep(payload, seqNo, rest);
    } else {
      var head, tail, next := payload[..MaxPayload], payload[MaxPayload..], (seqNo + 1) % 256;
      var more := Wire(tail, next, false, infos, cfg);
      assert MySQLPacket(head, seqNo) + more + rest == MySQLPacket(head, seqNo) + (more + rest);
      ReadPlainStep(head, seqNo, more + rest);
      PlainRoundTrip(tail, next, infos, cfg, rest);
      assert head + tail == payload;
    }
  }

  lemma {:induction false} PlainFront(s: seq<byte>, seqNo: byte)
    requires ReadPlain(s, seqNo).Done?
    ensures |s| >= 4 && s[3] == seqNo && |s| >= 4 + Value(s[0..3])
    ensures var n, next := Value(s[0..3]), (seqNo + 1) % 256;
            var chunk, rest, r := s[4..4 + n], s[4 + n..], ReadPlain(s, seqNo);
            if n < MaxPayload then r == Done(chunk, rest, next)
            else
              var more := ReadPlain(rest, next);
              more.Done? && r.payload == chunk + more.payload && r.rest == more.rest
  {
    hide Value;
  }

  lemma {:induction false} Regroup(a: seq<byte>, b: seq<byte>, c: seq<byte>)
    ensures a + (b + c) == a + b + c
  {
  }

  /** Conversely the plain reader accepts nothing but what the writer sends: framing is one-to-one. */
  lemma {:induction false} PlainReaderExact(s: seq<byte>, seqNo: byte, infos: seq<ExtraInfo>, cfg: Settings)
    requires ReadPlain(s, seqNo).Done?
    ensures var r := ReadPlain(s, seqNo);
            s == Wire(r.payload, seqNo, false, infos, cfg) + r.rest
    decreases |s|
  {
    PlainFront(s, seqNo);
    var r, n, next := ReadPlain(s, seqNo), Value(s[0..3]), (seqNo + 1) % 256;
    var chunk, rest := s[4..4 + n], s[4 + n..];
    FrontIsPacket(s, seqNo);
    hide MySQLPacket, Value, Wire, ReadPlain;
    WirePlainStep(r.payload, seqNo, infos, cfg);
    if n == MaxPayload {
      PlainReaderExact(rest, next, infos, cfg);
      var tail := ReadPlain(rest, next).payload;
      assert r.payload[..MaxPayload] == chunk && r.payload[MaxPayload..] == tail;
      Regroup(MySQLPacket(chunk, seqNo), Wire(tail, next, false, infos, cfg), r.rest);
    }
  }

  lemma {:induction false} FrontIsPacket(s: seq<byte>, seqNo: byte)
    requires |s| >= 4 && s[3] == seqNo && |s| >= 4 + Value(s[0..3])
    ensures var n := Value(s[0..3]);
            n <= MaxPayload && s == MySQLPacket(s[4..4 + n], seqNo) + s[4 + n..]
  {
    hide LittleEndian, Value, Radix;
    RadixValues();
    LittleEndianOfValue(s[0..3]);
    var n := Value(s[0..3]);
    assert s == s[0..3] + [s[3]] + s[4..4 + n] + s[4 + n..];
  }

  // ---- OB 2.0: what is read of what was written ----

  /** The payloads of the next `k` packets joined, and what follows them. */
  function DeframeMany(s: seq<byte>, k: nat): (r: Option<Packet>)
    decreases k
  {
    if k == 0 then Some(Packet([], s))
    else
      match Deframe(s)
      case None => None
      case Some(p) =>
        match DeframeMany(p.rest, k - 1)
        case None => None
        case Some(q) => Some(Packet(p.payload + q.payload, q.rest))
  }

  lemma {:induction false} DeframeChunk(chunk: seq<byte>, seqNo: byte, more: seq<byte>)
    requires |chunk| < MaxPayload
    ensures Deframe(MySQLPacket(chunk, seqNo) + more) == Some(Packet(chunk, more))
  {
    hide MySQLPacket, Value;
    SmallPacket(chunk, seqNo, more);
  }

  ghost predicate MagicKnown(cfg: Settings) {
    cfg.magic % Radix(2) == OB20Magic
  }

  /** The condition under which the first frame of a write can be read at all. */
  ghost predicate FirstFrameFits(n: nat, infos: seq<ExtraInfo>) {
    infos == [] || 36 + |ExtraBytes(infos)| + n <= MaxPayload
  }

  /** A frame of at most one full chunk: its packet is what the reader sees next, if the frame is readable. */
  lemma {:induction false} ChunkReadsBack(chunk: seq<byte>, seqNo: byte, infos: seq<ExtraInfo>, cfg: Settings,
                                          rest: seq<byte>)
    requires |chunk| <= MaxOB20Chunk && |ExtraBytes(infos)| + MaxPayload + 8 < Radix(4)
    ensures var s := FrameBytes(chunk, seqNo, infos, cfg) + rest;
            if MagicKnown(cfg) && FirstFrameFits(|chunk|, infos)
            then Bodies(s) == MySQLPacket(chunk, seqNo) + Bodies(rest) && Failure(s) == Failure(rest)
            else Bodies(s) == [] && Failure(s) == BadFrame
  {
    hide Sealed, FramePayload, ReadFrame, ExtraBytes, Radix, MySQLPacket;
    RadixValues();
    FrameRoundTrip(chunk, seqNo, infos, cfg, rest);
  }

  /** Without extra info a write of any length is conserved: reading back its packets gives the payload. */
  lemma {:induction false} OB20Conservation(payload: seq<byte>, seqNo: byte, cfg: Settings, rest: seq<byte>)
    requires MagicKnown(cfg)
    ensures var s := Wire(payload, seqNo, true, [], cfg) + rest;
            && DeframeMany(Bodies(s), Packets(|payload|, true)) == Some(Packet(payload, Bodies(rest)))
            && Failure(s) == Failure(rest)
    decreases |payload|
  {
    hide FrameBytes, Bodies, Deframe, Packets, Failure, MySQLPacket, Radix, MagicKnown;
    RadixValues();
    PacketsStep(|payload|, true);
    var next := (seqNo + 1) % 256;
    if |payload| < MaxOB20Chunk {
      ChunkReadsBack(payload, seqNo, [], cfg, rest);
      DeframeChunk(payload, seqNo, Bodies(rest));
      assert DeframeMany(Bodies(rest), 0) == Some(Packet([], Bodies(rest)));
      assert payload + [] == payload;
    } else {
      var head, tail := payload[..MaxOB20Chunk], payload[MaxOB20Chunk..];
      assert tail == [] ==> Wire(tail, next, true, [], cfg) == FrameBytes([], next, [], cfg);
      var more := Wire(tail, next, true, [], cfg) + rest;
      assert Wire(payload, seqNo, true, [], cfg) + rest == FrameBytes(head, seqNo, [], cfg) + more;
      ChunkReadsBack(head, seqNo, [], cfg, more);
      DeframeChunk(head, seqNo, Bodies(more));
      OB20Conservation(tail, next, cfg, rest);
      assert head + tail == payload;
    }
  }

  /** The writer's chunks are as long as they can be: one byte more, and the reader rejects the frame. */
  lemma {:induction false} ChunkMaximal(chunk: seq<byte>, seqNo: byte, cfg: Settings, rest: seq<byte>)
    requires MagicKnown(cfg) && |chunk| <= 0x1000_0000
    ensures ReadFrame(FrameBytes(chunk, seqNo, [], cfg) + rest) ==
            if |chunk| <= MaxOB20Chunk then Frame(MySQLPacket(chunk, seqNo), rest) else Stop(BadFrame)
  {
    hide FrameBytes, ReadFrame, MySQLPacket, Radix;
    RadixValues();
    FrameRoundTrip(chunk, seqNo, [], cfg, rest);
  }

  /**
   One read returns one write exactly when the payload is shorter than a chunk and, with extra info, the frame length
   still fits its three bytes. In every other case the caller gets a part of the payload or an error.
   */
  lemma {:induction false} OneWriteOneRead(payload: seq<byte>, seqNo: byte, infos: seq<ExtraInfo>, cfg: Settings,
                                           rest: seq<byte>)
    requires |ExtraBytes(infos)| + MaxPayload + 8 < Radix(4)
    ensures Deframe(Bodies(Wire(payload, seqNo, true, infos, cfg) + rest)) == Some(Packet(payload, Bodies(rest)))
            <==> MagicKnown(cfg) && |payload| < MaxOB20Chunk && FirstFrameFits(|payload|, infos)
  {
    hide FrameBytes, Bodies, Failure, MySQLPacket, Radix, MagicKnown;
    var next := (seqNo + 1) % 256;
    var head := if |payload| < MaxOB20Chunk then payload else payload[..MaxOB20Chunk];
    var more := if |payload| < MaxOB20Chunk then rest
                else (if |payload| == MaxOB20Chunk then FrameBytes([], next, [], cfg)
                      else Wire(payload[MaxOB20Chunk..], next, true, infos, cfg)) + rest;
    assert Wire(payload, seqNo, true, infos, cfg) + rest == FrameBytes(head, seqNo, infos, cfg) + more;
    ChunkReadsBack(head, seqNo, infos, cfg, more);
    if MagicKnown(cfg) && FirstFrameFits(|head|, infos) {
      DeframeChunk(head, seqNo, Bodies(more));
      if |payload| == MaxOB20Chunk {
        RadixValues();
        ChunkReadsBack([], next, [], cfg, rest);
      }
    }
  }

  /** With extra info, a write that does not fit is rejected by the reader as a bad frame. */
  lemma {:induction false} OversizeRejected(payload: seq<byte>, seqNo: byte, infos: seq<ExtraInfo>, cfg: Settings,
                                            rest: seq<byte>)
    requires |ExtraBytes(infos)| + MaxPayload + 8 < Radix(4)
    requires infos != [] && 36 + |ExtraBytes(infos)| + |payload| > MaxPayload
    ensures var s := Wire(payload, seqNo, true, infos, cfg) + rest;
            Deframe(Bodies(s)) == None && Failure(s) == BadFrame
  {
    hide FrameBytes, Bodies, Failure, MySQLPacket, Radix, MagicKnown;
    var next := (seqNo + 1) % 256;
    var head := if |payload| < MaxOB20Chunk then payload else payload[..MaxOB20Chunk];
    var more := if |payload| < MaxOB20Chunk then rest
                else (if |payload| == MaxOB20Chunk then FrameBytes([], next, [], cfg)
                      else Wire(payload[MaxOB20Chunk..], next, true, infos, cfg)) + rest;
    assert Wire(payload, seqNo, true, infos, cfg) + rest == FrameBytes(head, seqNo, infos, cfg) + more;
    ChunkReadsBack(head, seqNo, infos, cfg, more);
  }
}
