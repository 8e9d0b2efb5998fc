/**
 The frames of a write as another implementation would take them apart, by byte positions: 31 header bytes, as many
 payload bytes as bytes 19 to 22 say, and 4 trailer bytes.
 */
module FrameFields {
  import opened Bytes
  import opened BitStrings
  import opened Checksums
  import opened Frames
  import opened PacketConns

  /** A frame: header, payload and trailer as they stand in the stream. */
  datatype Cut = Cut(header: seq<byte>, payload: seq<byte>, trailer: seq<byte>)

  /** The stream cut into whole frames, or None when it does not end with one. */
  function CutUp(s: seq<byte>): (r: Option<seq<Cut>>)
    decreases |s|
  {
    if s == [] then Some([])
    else if |s| < 31 then None
    else
      var n := Value(s[19..23]);
      if |s| < 31 + n + 4 then None
      else
        match CutUp(s[31 + n + 4..])
        case None => None
        case Some(more) => Some([Cut(s[..31], s[31..31 + n], s[31 + n..31 + n + 4])] + more)
  }

  /** The MySQL packet in a payload: behind the extra-info block when flag bit 0 is set. */
  function PacketIn(c: Cut): Option<seq<byte>> {
    if |c.header| < 31 then None
    else if Value(c.header[23..27]) % 2 == 0 then Some(c.payload)
    else if |c.payload| < 4 || |c.payload| < 4 + Value(c.payload[..4]) then None
    else Some(c.payload[4 + Value(c.payload[..4])..])
  }

  /** What the header of a frame says, field by field, and the packet it carries. */
  predicate Carries(c: Cut, chunk: seq<byte>, seqNo: byte, extra: bool, cfg: Settings) {
    && |c.header| == 31 && |c.trailer| == 4
    && Value(c.header[0..3]) == (24 + |c.payload| + 4) % 0x100_0000
    && c.header[3] == seqNo
    && c.header[4..7] == [0, 0, 0]
    && Value(c.header[7..9]) == cfg.magic % 0x1_0000
    && c.header[9..11] == [20, 0]
    && Value(c.header[11..15]) == cfg.connectionID % 0x1_0000_0000
    && Value(c.header[15..18]) == cfg.requestID % 0x100_0000
    && c.header[18] == seqNo
    && Value(c.header[19..23]) == |c.payload|
    && Value(c.header[23..27]) == 2 + (if extra then 1 else 0) + (if cfg.newExtraInfo then 8 else 0)
    && c.header[27..29] == [0, 0]
    && (!cfg.checksum ==> c.header[29..31] == [0, 0] && c.trailer == [0, 0, 0, 0])
    && (cfg.checksum ==> c.header[29..31] == HeaderChecksum(c.header[..29]) && c.trailer == PayloadChecksum(c.payload))
    && Inside(c, chunk, seqNo)
  }

  /** The MySQL packet inside: length, sequence byte and chunk. */
  predicate Inside(c: Cut, chunk: seq<byte>, seqNo: byte) {
    var p := PacketIn(c);
    p.Some? && |p.value| == 4 + |chunk| && Value(p.value[..3]) == |chunk| && p.value[3] == seqNo && p.value[4..] == chunk
  }

  // ---- one frame ----

  lemma {:induction false} HeaderPositions(h: Header, checksum: bool)
    ensures var s := EncodeHeader(h, checksum);
            && Value(s[0..3]) == h.compressLength % 0x100_0000 && s[3] == h.compressSeqNo
            && Value(s[4..7]) == h.uncompressLength % 0x100_0000
            && Value(s[7..9]) == h.magic % 0x1_0000 && Value(s[9..11]) == h.version % 0x1_0000
            && Value(s[11..15]) == h.connectionID % 0x1_0000_0000
            && Value(s[15..18]) == h.requestID % 0x100_0000 && s[18] == h.packetSeq
            && Value(s[19..23]) == h.payloadLen % 0x1_0000_0000 && Value(s[23..27]) == h.flag % 0x1_0000_0000
            && Value(s[27..29]) == h.reserved % 0x1_0000
            && s[29..31] == (if checksum then HeaderChecksum(s[..29]) else [0, 0])
  {
    hide Value, Radix, Pack, Remainder, LittleEndian, HeaderFields;
    RadixValues();
    var tail := if checksum then HeaderChecksum(HeaderFields(h)) else ZeroBytes(2);
    ParseOfHeaderFields(h, tail);
    assert EncodeHeader(h, checksum)[29..31] == tail && EncodeHeader(h, checksum)[..29] == HeaderFields(h);
  }

  lemma {:induction false} SmallValues(s: seq<byte>)
    ensures |s| == 2 && Value(s) == 20 ==> s == [20, 0]
    ensures |s| == 2 && Value(s) == 0 ==> s == [0, 0]
    ensures |s| == 3 && Value(s) == 0 ==> s == [0, 0, 0]
  {
    if |s| == 2 {
      assert s == [s[0], s[1]] && Value(s) == s[0] as int + 256 * Value(s[1..]) && s[1..] == [s[1]];
      assert Value([s[1]]) == s[1] as int;
    } else if |s| == 3 {
      assert s == [s[0], s[1], s[2]] && s[1..] == [s[1], s[2]] && s[1..][1..] == [s[2]];
      assert Value([s[2]]) == s[2] as int;
      assert Value(s[1..]) == s[1] as int + 256 * Value(s[1..][1..]);
    }
  }

  lemma {:induction false} PayloadCarries(chunk: seq<byte>, seqNo: byte, infos: seq<ExtraInfo>)
    requires |chunk| <= MaxPayload && |ExtraBytes(infos)| < 0x1_0000_0000
    ensures var s := FramePayload(chunk, seqNo, infos);
            var at := if infos == [] then 0 else 4 + |ExtraBytes(infos)|;
            && |s| == at + 4 + |chunk| && (infos != [] ==> Value(s[..4]) == |ExtraBytes(infos)|)
            && Value(s[at..][..3]) == |chunk| && s[at..][3] == seqNo && s[at..][4..] == chunk
  {
    hide Value, Radix, LittleEndian, ExtraBytes;
    RadixValues();
    var s, extra := FramePayload(chunk, seqNo, infos), ExtraBytes(infos);
    var at := if infos == [] then 0 else 4 + |extra|;
    ValueOfLittleEndian(|extra|, 4);
    ValueOfLittleEndian(|chunk|, 3);
    var p := MySQLPacket(chunk, seqNo);
    assert s[at..] == p;
    assert p[..3] == LittleEndian(|chunk|, 3);
    assert infos != [] ==> s[..4] == LittleEndian(|extra|, 4);
  }

  /** The parts of a frame as it is written. */
  function CutOf(chunk: seq<byte>, seqNo: byte, infos: seq<ExtraInfo>, cfg: Settings): Cut {
    var payload := FramePayload(chunk, seqNo, infos);
    Cut(EncodeHeader(FrameHeader(|payload|, seqNo, infos != [], cfg), cfg.checksum), payload,
        if cfg.checksum then PayloadChecksum(payload) else ZeroBytes(4))
  }

  lemma {:induction false} FrameIsCut(chunk: seq<byte>, seqNo: byte, infos: seq<ExtraInfo>, cfg: Settings)
    ensures var c := CutOf(chunk, seqNo, infos, cfg);
            FrameBytes(chunk, seqNo, infos, cfg) == c.header + c.payload + c.trailer
  {
    hide Pack, Remainder, EncodeHeader, FramePayload;
  }

  lemma {:induction false} CutCarries(chunk: seq<byte>, seqNo: byte, infos: seq<ExtraInfo>, cfg: Settings)
    requires |chunk| <= MaxPayload && |ExtraBytes(infos)| + 0x100_0007 < 0x1_0000_0000
    ensures Carries(CutOf(chunk, seqNo, infos, cfg), chunk, seqNo, infos != [], cfg)
  {
    var c := CutOf(chunk, seqNo, infos, cfg);
    hide Value, Radix, Pack, Remainder, EncodeHeader, FramePayload, ExtraBytes, FrameHeader, Inside;
    HeaderCarries(|c.payload|, seqNo, infos != [], cfg);
    PayloadInside(c, chunk, seqNo, infos);
  }

  lemma {:induction false} PayloadInside(c: Cut, chunk: seq<byte>, seqNo: byte, infos: seq<ExtraInfo>)
    requires |chunk| <= MaxPayload && |ExtraBytes(infos)| + 0x100_0007 < 0x1_0000_0000
    requires |c.header| == 31 && c.payload == FramePayload(chunk, seqNo, infos)
    requires Value(c.header[23..27]) % 2 == if infos != [] then 1 else 0
    ensures Inside(c, chunk, seqNo)
  {
    hide Value, Radix, FramePayload, ExtraBytes;
    PayloadCarries(chunk, seqNo, infos);
    var at := if infos == [] then 0 else 4 + |ExtraBytes(infos)|;
    assert c.payload[0..] == c.payload;
    assert PacketIn(c) == Some(c.payload[at..]);
  }

  lemma {:induction false} HeaderCarries(n: nat, seqNo: byte, extra: bool, cfg: Settings)
    requires n < 0x1_0000_0000
    ensures var s := EncodeHeader(FrameHeader(n, seqNo, extra, cfg), cfg.checksum);
            && Value(s[0..3]) == (24 + n + 4) % 0x100_0000 && s[3] == seqNo && s[4..7] == [0, 0, 0]
            && Value(s[7..9]) == cfg.magic % 0x1_0000 && s[9..11] == [20, 0]
            && Value(s[11..15]) == cfg.connectionID % 0x1_0000_0000
            && Value(s[15..18]) == cfg.requestID % 0x100_0000 && s[18] == seqNo && Value(s[19..23]) == n
            && Value(s[23..27]) == 2 + (if extra then 1 else 0) + (if cfg.newExtraInfo then 8 else 0)
            && s[27..29] == [0, 0] && s[29..31] == (if cfg.checksum then HeaderChecksum(s[..29]) else [0, 0])
  {
    hide Value, Radix, EncodeHeader, Pack, Remainder;
    RadixValues();
    var s := EncodeHeader(FrameHeader(n, seqNo, extra, cfg), cfg.checksum);
    HeaderPositions(FrameHeader(n, seqNo, extra, cfg), cfg.checksum);
    SmallValues(s[4..7]);
    SmallValues(s[9..11]);
    SmallValues(s[27..29]);
    TwiceCut(24 + n + 4);
  }

  lemma {:induction false} TwiceCut(n: nat)
    ensures n % 0x1_0000_0000 % 0x100_0000 == n % 0x100_0000
  {
    assert n == 0x100_0000 * (256 * (n / 0x1_0000_0000)) + n % 0x1_0000_0000;
  }

  lemma {:induction false} CutUpStep(c: Cut, rest: seq<byte>)
    requires |c.header| == 31 && |c.trailer| == 4 && Value(c.header[19..23]) == |c.payload|
    ensures CutUp(c.header + c.payload + c.trailer + rest) ==
            match CutUp(rest)
            case None => None
            case Some(more) => Some([c] + more)
  {
    hide Value;
    var s, n := c.header + c.payload + c.trailer + rest, |c.payload|;
    assert s[19..23] == c.header[19..23] && s[..31] == c.header && s[31..31 + n] == c.payload;
    assert s[31 + n..31 + n + 4] == c.trailer && s[31 + n + 4..] == rest;
  }

  // ---- a whole write ----

  /** The chunks a payload is sent in: full ones and a last one that is not full. */
  function Chunks(payload: seq<byte>): (cs: seq<seq<byte>>)
    ensures |cs| == |payload| / 16_777_183 + 1
  {
    if |payload| < 16_777_183 then [payload]
    else
      FullChunk(|payload|);
      [payload[..16_777_183]] + Chunks(payload[16_777_183..])
  }

  lemma {:induction false} FullChunk(n: nat)
    requires n >= 16_777_183
    ensures n / 16_777_183 == (n - 16_777_183) / 16_777_183 + 1
  {
  }

  /** Frame `i` of a write carries chunk `i` under the sequence byte that is `i` further; only a last empty one may lack
   the extra info. */
  predicate FrameCarries(c: Cut, i: nat, payload: seq<byte>, seqNo: byte, infos: seq<ExtraInfo>, cfg: Settings)
    requires i < |Chunks(payload)|
  {
    var bare := i > 0 && Chunks(payload)[i] == [];
    Carries(c, Chunks(payload)[i], (seqNo + i) % 256, infos != [] && !bare, cfg)
  }

  ghost predicate AllCarry(cs: seq<Cut>, payload: seq<byte>, seqNo: byte, infos: seq<ExtraInfo>, cfg: Settings) {
    |cs| == |Chunks(payload)| && forall i :: 0 <= i < |cs| ==> FrameCarries(cs[i], i, payload, seqNo, infos, cfg)
  }

  lemma {:induction false} FrameCuts(chunk: seq<byte>, seqNo: byte, infos: seq<ExtraInfo>, cfg: Settings, rest: seq<byte>)
    requires |chunk| <= MaxPayload && |ExtraBytes(infos)| + 0x100_0007 < 0x1_0000_0000
    ensures Carries(CutOf(chunk, seqNo, infos, cfg), chunk, seqNo, infos != [], cfg)
    ensures CutUp(FrameBytes(chunk, seqNo, infos, cfg) + rest) ==
            match CutUp(rest)
            case None => None
            case Some(more) => Some([CutOf(chunk, seqNo, infos, cfg)] + more)
  {
    hide FrameBytes, CutUp, Carries, CutOf, ExtraBytes;
    CutCarries(chunk, seqNo, infos, cfg);
    FrameIsCut(chunk, seqNo, infos, cfg);
    CarriesLength(CutOf(chunk, seqNo, infos, cfg), chunk, seqNo, infos != [], cfg);
    CutUpStep(CutOf(chunk, seqNo, infos, cfg), rest);
  }

  lemma {:induction false} LaterFrames(c: Cut, more: seq<Cut>, payload: seq<byte>, seqNo: byte, infos: seq<ExtraInfo>,
                                       cfg: Settings)
    requires |payload| > 16_777_183 && Carries(c, payload[..16_777_183], seqNo, infos != [], cfg)
    requires AllCarry(more, payload[16_777_183..], (seqNo + 1) % 256, infos, cfg)
    ensures AllCarry([c] + more, payload, seqNo, infos, cfg)
  {
    hide Carries;
    var tail, next, r := payload[16_777_183..], (seqNo + 1) % 256, [c] + more;
    assert Chunks(payload) == [payload[..16_777_183]] + Chunks(tail);
    FirstNotEmpty(tail);
    forall i | 0 <= i < |r|
      ensures FrameCarries(r[i], i, payload, seqNo, infos, cfg)
    {
      if i > 0 {
        assert FrameCarries(more[i - 1], i - 1, tail, next, infos, cfg);
        NextSequence(seqNo, i);
      }
    }
  }

  lemma {:induction false} NextSequence(seqNo: byte, i: nat)
    requires i > 0
    ensures ((seqNo + 1) % 256 + (i - 1)) % 256 == (seqNo + i) % 256
  {
  }

  lemma {:induction false} LastFrames(payload: seq<byte>, seqNo: byte, infos: seq<ExtraInfo>, cfg: Settings)
    requires |ExtraBytes(infos)| + 0x100_0007 < 0x1_0000_0000 && |payload| <= 16_777_183
    ensures var r := CutUp(Wire(payload, seqNo, true, infos, cfg));
            r.Some? && AllCarry(r.value, payload, seqNo, infos, cfg)
  {
    hide FrameBytes, CutUp, Carries, CutOf, ExtraBytes;
    var n, next := 16_777_183, (seqNo + 1) % 256;
    NothingToCut();
    if |payload| < n {
      FrameCuts(payload, seqNo, infos, cfg, []);
      assert FrameBytes(payload, seqNo, infos, cfg) + [] == Wire(payload, seqNo, true, infos, cfg);
    } else {
      NoExtra();
      FrameCuts([], next, [], cfg, []);
      assert FrameBytes([], next, [], cfg) + [] == FrameBytes([], next, [], cfg);
      FrameCuts(payload, seqNo, infos, cfg, FrameBytes([], next, [], cfg));
      assert payload[..n] == payload && payload[n..] == [] && Chunks(payload) == [payload, []];
    }
  }

  /**
   The bytes of a write of any length cut up into frames, one for each chunk. Every header has the connection's id and
   request id, both sequence bytes are that of the packet inside, and the version, flags and lengths are as they should.
   */
  lemma {:induction false} WriteCarries(payload: seq<byte>, seqNo: byte, infos: seq<ExtraInfo>, cfg: Settings)
    requires |ExtraBytes(infos)| + 0x100_0007 < 0x1_0000_0000
    ensures var r := CutUp(Wire(payload, seqNo, true, infos, cfg));
            r.Some? && AllCarry(r.value, payload, seqNo, infos, cfg)
    decreases |payload|
  {
    if |payload| <= 16_777_183 {
      LastFrames(payload, seqNo, infos, cfg);
    } else {
      hide FrameBytes, CutUp, Carries, CutOf, ExtraBytes, AllCarry;
      var tail, next := payload[16_777_183..], (seqNo + 1) % 256;
      WriteCarries(tail, next, infos, cfg);
      FrameCuts(payload[..16_777_183], seqNo, infos, cfg, Wire(tail, next, true, infos, cfg));
      LaterFrames(CutOf(payload[..16_777_183], seqNo, infos, cfg), CutUp(Wire(tail, next, true, infos, cfg)).value, payload,
                  seqNo, infos, cfg);
    }
  }

  /** The empty packet that closes a write carries the same. */
  lemma {:induction false} EmptyCarries(seqNo: byte, cfg: Settings)
    ensures var r := CutUp(ChunkWire([], seqNo, true, [], cfg));
            r.Some? && |r.value| == 1 && Carries(r.value[0], [], seqNo, false, cfg)
  {
    hide FrameBytes, CutUp, Carries, CutOf;
    NoExtra();
    NothingToCut();
    FrameCuts([], seqNo, [], cfg, []);
    assert FrameBytes([], seqNo, [], cfg) + [] == FrameBytes([], seqNo, [], cfg);
  }

  lemma {:induction false} CarriesLength(c: Cut, chunk: seq<byte>, seqNo: byte, extra: bool, cfg: Settings)
    requires Carries(c, chunk, seqNo, extra, cfg)
    ensures |c.header| == 31 && |c.trailer| == 4 && Value(c.header[19..23]) == |c.payload|
  {
    hide Value;
  }

  lemma {:induction false} NothingToCut()
    ensures CutUp([]) == Some([])
  {
  }

  lemma {:induction false} NoExtra()
    ensures ExtraBytes([]) == []
  {
  }

  lemma {:induction false} FirstNotEmpty(payload: seq<byte>)
    requires payload != []
    ensures Chunks(payload)[0] != []
  {
  }
}
