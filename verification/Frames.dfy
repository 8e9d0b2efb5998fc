/**
 The byte layout of OB 2.0 frames and of the MySQL packets inside them: header, checksums, extra-info block and
 payload, in both directions.
 */
module Frames {
  import opened Bytes
  import opened BitStrings
  import opened Checksums

  const MaxPayload: nat := 0xFF_FFFF
  const OB20HeaderLen: nat := 24
  const TotalHeaderLen: nat := 31
  const TailLen: nat := 4
  const ExtraLengthField: nat := 4
  const MaxOB20Chunk: nat := MaxPayload - OB20HeaderLen - TailLen - 4
  const OB20Magic: nat := 0x20AB
  const OB20Version: nat := 20

  const FlagExtraInfo: nat := 1
  const FlagLast: nat := 2
  const FlagNewExtraInfo: nat := 8

  // ---- checksums as stored bytes ----

  function HeaderChecksum(data: seq<byte>): (s: seq<byte>)
    ensures |s| == 2
  {
    Pack(Remainder(data, Crc16Poly))
  }

  function PayloadChecksum(data: seq<byte>): (s: seq<byte>)
    ensures |s| == 4
  {
    Pack(Remainder(data, Crc32Poly))
  }

  /** The checksums of one byte: the polynomials 0xA001 and 0x82F63B78, low-order byte first. */
  lemma {:induction false} ChecksumsOfTop()
    ensures HeaderChecksum([0x80]) == [0x01, 0xA0]
    ensures PayloadChecksum([0x80]) == [0x78, 0x3B, 0xF6, 0x82]
  {
    hide Remainder, Pack, PolyOf;
    RemainderOfTop(Crc16Poly);
    RemainderOfTop(Crc32Poly);
    PackPoly([0x01], 0xA0);
    PackPoly([0x78, 0x3B, 0xF6], 0x82);
    assert [0x01] + [0xA0] == [0x01, 0xA0] && [0x78, 0x3B, 0xF6] + [0x82] == [0x78, 0x3B, 0xF6, 0x82];
  }

  function ZeroBytes(n: nat): (s: seq<byte>)
    ensures |s| == n
  {
    seq(n, i => 0)
  }

  // ---- the frame header ----

  datatype Header = Header(
    compressLength: nat, compressSeqNo: byte, uncompressLength: nat, magic: nat, version: nat, connectionID: nat,
    requestID: nat, packetSeq: byte, payloadLen: nat, flag: nat, reserved: nat)

  function CompressFields(h: Header): (s: seq<byte>)
    ensures |s| == 7
  {
    LittleEndian(h.compressLength, 3) + [h.compressSeqNo] + LittleEndian(h.uncompressLength, 3)
  }

  function OB20Fields(h: Header): (s: seq<byte>)
    ensures |s| == 22
  {
    LittleEndian(h.magic, 2) + LittleEndian(h.version, 2) + LittleEndian(h.connectionID, 4)
    + LittleEndian(h.requestID, 3) + [h.packetSeq] + LittleEndian(h.payloadLen, 4) + LittleEndian(h.flag, 4)
    + LittleEndian(h.reserved, 2)
  }

  /** The 29 bytes that the header checksum covers. */
  function HeaderFields(h: Header): (s: seq<byte>)
    ensures |s| == 29
  {
    CompressFields(h) + OB20Fields(h)
  }

  function ParseFields(buf: seq<byte>): (h: Header)
    requires |buf| >= 29
  {
    Header(Value(buf[0..3]), buf[3], Value(buf[4..7]), Value(buf[7..9]), Value(buf[9..11]), Value(buf[11..15]),
           Value(buf[15..18]), buf[18], Value(buf[19..23]), Value(buf[23..27]), Value(buf[27..29]))
  }

  function DecodeHeader(buf: seq<byte>): (r: Option<Header>)
  {
    if |buf| < TotalHeaderLen then None
    else
      var h := ParseFields(buf);
      if h.magic != OB20Magic || h.version != OB20Version then None
      else if buf[29..31] != ZeroBytes(2) && buf[29..31] != HeaderChecksum(buf[..29]) then None
      else Some(h)
  }

  /** What a header holds once its fields have been cut to their widths on the wire. */
  function Truncate(h: Header): Header {
    h.(compressLength := h.compressLength % Radix(3), uncompressLength := h.uncompressLength % Radix(3),
       magic := h.magic % Radix(2), version := h.version % Radix(2), connectionID := h.connectionID % Radix(4),
       requestID := h.requestID % Radix(3), payloadLen := h.payloadLen % Radix(4), flag := h.flag % Radix(4),
       reserved := h.reserved % Radix(2))
  }

  lemma {:induction false} ParseOfHeaderFields(h: Header, rest: seq<byte>)
    ensures ParseFields(HeaderFields(h) + rest) == Truncate(h)
  {
    hide LittleEndian, Value, Radix;
    var buf := HeaderFields(h) + rest;
    assert buf[0..3] == LittleEndian(h.compressLength, 3);
    assert buf[4..7] == LittleEndian(h.uncompressLength, 3);
    assert buf[7..9] == LittleEndian(h.magic, 2);
    assert buf[9..11] == LittleEndian(h.version, 2);
    assert buf[11..15] == LittleEndian(h.connectionID, 4);
    assert buf[15..18] == LittleEndian(h.requestID, 3);
    assert buf[19..23] == LittleEndian(h.payloadLen, 4);
    assert buf[23..27] == LittleEndian(h.flag, 4);
    assert buf[27..29] == LittleEndian(h.reserved, 2);
    ValueOfLittleEndian(h.compressLength, 3);
    ValueOfLittleEndian(h.uncompressLength, 3);
    ValueOfLittleEndian(h.magic, 2);
    ValueOfLittleEndian(h.version, 2);
    ValueOfLittleEndian(h.connectionID, 4);
    ValueOfLittleEndian(h.requestID, 3);
    ValueOfLittleEndian(h.payloadLen, 4);
    ValueOfLittleEndian(h.flag, 4);
    ValueOfLittleEndian(h.reserved, 2);
  }

  /** The 31 header bytes as written; with checksums off the last two are zero. */
  function EncodeHeader(h: Header, checksum: bool): (s: seq<byte>)
    ensures |s| == TotalHeaderLen
  {
    HeaderFields(h) + (if checksum then HeaderChecksum(HeaderFields(h)) else ZeroBytes(2))
  }

  lemma {:induction false} HeaderRoundTrip(h: Header, checksum: bool)
    ensures DecodeHeader(EncodeHeader(h, checksum)) ==
            if h.magic % Radix(2) == OB20Magic && h.version % Radix(2) == OB20Version
            then Some(Truncate(h)) else None
  {
    var tail := if checksum then HeaderChecksum(HeaderFields(h)) else ZeroBytes(2);
    var buf := EncodeHeader(h, checksum);
    ParseOfHeaderFields(h, tail);
    assert buf[29..31] == tail && buf[..29] == HeaderFields(h);
  }

  /** Encoding in place: fills the first 31 bytes of the buffer and leaves the rest alone. */
  method EncodeHeaderInto(h: Header, buf: array<byte>, table: array<Bits>)
    requires buf.Length >= TotalHeaderLen && IsTable(table[..], Crc16Poly)
    modifies buf
    ensures buf[..TotalHeaderLen] == EncodeHeader(h, true)
    ensures forall i :: TotalHeaderLen <= i < buf.Length ==> buf[i] == old(buf[i])
  {
    hide CompressFields, OB20Fields, Pack, Remainder, Divide, MessageBits, PolyOf, IsTable;
    PutCompressHeader(h, buf);
    PutOB20Header(h, buf);
    assert buf[..29] == HeaderFields(h);
    var crc := Checksum(table, buf[..29], Crc16Poly);
    PutBytes(buf, 29, Pack(crc));
  }

  method PutCompressHeader(h: Header, buf: array<byte>)
    requires buf.Length >= TotalHeaderLen
    modifies buf
    ensures buf[..7] == CompressFields(h)
    ensures forall i :: 7 <= i < buf.Length ==> buf[i] == old(buf[i])
  {
    hide LittleEndian;
    PutBytes(buf, 0, LittleEndian(h.compressLength, 3));
    PutBytes(buf, 3, [h.compressSeqNo]);
    PutBytes(buf, 4, LittleEndian(h.uncompressLength, 3));
  }

  method PutOB20Header(h: Header, buf: array<byte>)
    requires buf.Length >= TotalHeaderLen
    modifies buf
    ensures buf[..29] == old(buf[..7]) + OB20Fields(h)
    ensures forall i :: 29 <= i < buf.Length ==> buf[i] == old(buf[i])
  {
    hide LittleEndian;
    PutBytes(buf, 7, LittleEndian(h.magic, 2));
    PutBytes(buf, 9, LittleEndian(h.version, 2));
    PutBytes(buf, 11, LittleEndian(h.connectionID, 4));
    PutBytes(buf, 15, LittleEndian(h.requestID, 3));
    PutBytes(buf, 18, [h.packetSeq]);
    PutBytes(buf, 19, LittleEndian(h.payloadLen, 4));
    PutBytes(buf, 23, LittleEndian(h.flag, 4));
    PutBytes(buf, 27, LittleEndian(h.reserved, 2));
  }

  method PutBytes(buf: array<byte>, at: nat, data: seq<byte>)
    requires at + |data| <= buf.Length
    modifies buf
    ensures buf[..at + |data|] == old(buf[..at]) + data
    ensures forall i :: at + |data| <= i < buf.Length ==> buf[i] == old(buf[i])
  {
    for i := 0 to |data|
      invariant buf[..at + i] == old(buf[..at]) + data[..i]
      invariant forall j :: at + i <= j < buf.Length ==> buf[j] == old(buf[j])
    {
      buf[at + i] := data[i];
    }
  }

  // ---- one frame from the stream ----

  datatype FrameRead = Frame(body: seq<byte>, rest: seq<byte>) | Stop(error: Error)

  /** The MySQL bytes of a frame payload: what is left once a flagged extra-info block is skipped. */
  function SkipExtraInfo(flag: nat, payload: seq<byte>): (r: Result<seq<byte>>)
  {
    if flag % 2 == 0 then Ok(payload)
    else if |payload| < ExtraLengthField then Err(BadFrame)
    else
      var extraTotal := ExtraLengthField + Value(payload[0..4]);
      if |payload| < extraTotal then Err(BadFrame) else Ok(payload[extraTotal..])
  }

  function ReadFrame(s: seq<byte>): (r: FrameRead)
    ensures r.Frame? ==> |r.rest| < |s|
  {
    if |s| < TotalHeaderLen then Stop(UnexpectedEOF)
    else ReadAfterHeader(DecodeHeader(s[..TotalHeaderLen]), s[TotalHeaderLen..])
  }

  function ReadAfterHeader(header: Option<Header>, s: seq<byte>): (r: FrameRead)
    ensures r.Frame? ==> |r.rest| <= |s|
  {
    match header
    case None => Stop(BadFrame)
    case Some(h) =>
      if h.compressLength != (OB20HeaderLen + h.payloadLen + TailLen) % Radix(4) then Stop(BadFrame)
      else if h.uncompressLength != 0 then Stop(BadFrame)
      else
        var n := h.payloadLen;
        if |s| < n + TailLen then Stop(UnexpectedEOF)
        else
          match Unwrap(h.flag, s[..n], s[n..n + TailLen])
          case Err(e) => Stop(e)
          case Ok(body) => Frame(body, s[n + TailLen..])
  }

  function Unwrap(flag: nat, payload: seq<byte>, trailer: seq<byte>): (r: Result<seq<byte>>)
  {
    if trailer != ZeroBytes(4) && trailer != PayloadChecksum(payload) then Err(BadFrame)
    else SkipExtraInfo(flag, payload)
  }

  /** The bodies of all frames that can be read from the front of the stream, joined together. */
  function Bodies(s: seq<byte>): (b: seq<byte>)
    decreases |s|
  {
    match ReadFrame(s)
    case Stop(_) => []
    case Frame(body, rest) => body + Bodies(rest)
  }

  /** The error that the first unreadable frame gives. */
  function Failure(s: seq<byte>): (e: Error)
    decreases |s|
  {
    match ReadFrame(s)
    case Stop(e) => e
    case Frame(_, rest) => Failure(rest)
  }

  // ---- MySQL packets ----

  function MySQLPacket(chunk: seq<byte>, seqNo: byte): (s: seq<byte>)
    ensures |s| == 4 + |chunk|
  {
    LittleEndian(|chunk|, 3) + [seqNo] + chunk
  }

  datatype Packet = Packet(payload: seq<byte>, rest: seq<byte>)

  /** The packet at the front of a MySQL byte stream: a chunk of 2^24 - 1 bytes is continued by the next one. */
  function Deframe(s: seq<byte>): (r: Option<Packet>)
    ensures r.Some? ==> |r.value.rest| < |s|
    decreases |s|
  {
    if |s| < 4 then None
    else
      var end := 4 + Value(s[0..3]);
      if |s| < end then None
      else if end - 4 < MaxPayload then Some(Packet(s[4..end], s[end..]))
      else
        match Deframe(s[end..])
        case None => None
        case Some(p) => Some(Packet(s[4..end] + p.payload, p.rest))
  }

  // ---- one frame to the stream ----

  datatype ExtraInfo = ExtraInfo(typ: nat, data: seq<byte>)

  function ExtraBytes(infos: seq<ExtraInfo>): (s: seq<byte>)
  {
    if infos == [] then []
    else LittleEndian(infos[0].typ, 2) + LittleEndian(|infos[0].data|, 4) + infos[0].data + ExtraBytes(infos[1..])
  }

  /** What every frame of one request has in common. */
  datatype Settings = Settings(magic: nat, connectionID: nat, requestID: nat, newExtraInfo: bool, checksum: bool)

  function FramePayload(chunk: seq<byte>, seqNo: byte, infos: seq<ExtraInfo>): (s: seq<byte>)
    ensures |s| == |chunk| + 4 + (if infos == [] then 0 else 4 + |ExtraBytes(infos)|)
  {
    if infos == [] then MySQLPacket(chunk, seqNo)
    else LittleEndian(|ExtraBytes(infos)|, 4) + ExtraBytes(infos) + MySQLPacket(chunk, seqNo)
  }

  function FrameHeader(payloadLen: nat, seqNo: byte, extra: bool, cfg: Settings): Header {
    Header((OB20HeaderLen + payloadLen + TailLen) % Radix(4), seqNo, 0, cfg.magic, OB20Version, cfg.connectionID,
           cfg.requestID % Radix(3), seqNo, payloadLen % Radix(4),
           FlagLast + (if extra then FlagExtraInfo else 0) + (if cfg.newExtraInfo then FlagNewExtraInfo else 0), 0)
  }

  /** A frame around a payload. */
  function Sealed(payload: seq<byte>, packetSeq: byte, extra: bool, cfg: Settings): (s: seq<byte>)
  {
    EncodeHeader(FrameHeader(|payload|, packetSeq, extra, cfg), cfg.checksum) + payload
    + (if cfg.checksum then PayloadChecksum(payload) else ZeroBytes(4))
  }

  function FrameBytes(chunk: seq<byte>, seqNo: byte, infos: seq<ExtraInfo>, cfg: Settings): (s: seq<byte>)
  {
    Sealed(FramePayload(chunk, seqNo, infos), seqNo, infos != [], cfg)
  }

  // ---- reading back what was written ----

  lemma {:induction false} HeaderAccepted(payloadLen: nat, seqNo: byte, extra: bool, cfg: Settings)
    requires OB20HeaderLen + payloadLen + TailLen < Radix(4)
    ensures var r := DecodeHeader(EncodeHeader(FrameHeader(payloadLen, seqNo, extra, cfg), cfg.checksum));
            && (r.Some? <==> cfg.magic % Radix(2) == OB20Magic)
            && (r.Some? ==>
                  && r.value.payloadLen == payloadLen
                  && r.value.uncompressLength == 0
                  && (r.value.flag % 2 == 1 <==> extra)
                  && r.value.compressLength == (OB20HeaderLen + payloadLen + TailLen) % Radix(3))
  {
    hide DecodeHeader, EncodeHeader, Radix;
    HeaderRoundTrip(FrameHeader(payloadLen, seqNo, extra, cfg), cfg.checksum);
    RadixValues();
  }

  lemma {:induction false} SkipWritten(chunk: seq<byte>, seqNo: byte, infos: seq<ExtraInfo>, flag: nat)
    requires |ExtraBytes(infos)| < Radix(4)
    requires flag % 2 == 1 <==> infos != []
    ensures SkipExtraInfo(flag, FramePayload(chunk, seqNo, infos)) == Ok(MySQLPacket(chunk, seqNo))
  {
    hide LittleEndian, Value, Radix, ExtraBytes, MySQLPacket;
    var payload := FramePayload(chunk, seqNo, infos);
    if infos != [] {
      var e := |ExtraBytes(infos)|;
      assert payload[0..4] == LittleEndian(e, 4);
      ValueOfLittleEndian(e, 4);
      assert payload[4 + e..] == MySQLPacket(chunk, seqNo);
    }
  }

  lemma {:induction false} ReadParts(header: Option<Header>, payload: seq<byte>, trailer: seq<byte>, rest: seq<byte>)
    requires |trailer| == TailLen && (header.Some? ==> header.value.payloadLen == |payload|)
    ensures ReadAfterHeader(header, payload + trailer + rest) ==
            if header.None? || header.value.uncompressLength != 0
               || header.value.compressLength != (OB20HeaderLen + |payload| + TailLen) % Radix(4)
            then Stop(BadFrame)
            else match Unwrap(header.value.flag, payload, trailer)
                 case Err(e) => Stop(e)
                 case Ok(body) => Frame(body, rest)
  {
    var s, n := payload + trailer + rest, |payload|;
    assert s[..n] == payload && s[n..n + TailLen] == trailer && s[n + TailLen..] == rest;
  }

  lemma {:induction false} ReadFrameParts(header: seq<byte>, payload: seq<byte>, trailer: seq<byte>, rest: seq<byte>)
    requires |header| == TotalHeaderLen
    ensures ReadFrame(header + payload + trailer + rest) ==
            ReadAfterHeader(DecodeHeader(header), payload + trailer + rest)
  {
    var s := header + payload + trailer + rest;
    assert s[..TotalHeaderLen] == header && s[TotalHeaderLen..] == payload + trailer + rest;
  }

  lemma {:induction false} LengthFits(n: nat)
    requires n < Radix(4)
    ensures n % Radix(4) == n
    ensures n % Radix(3) == n <==> n < Radix(3)
  {
  }

  lemma {:induction false} TrailerAccepted(payload: seq<byte>, checksum: bool)
    ensures var trailer := if checksum then PayloadChecksum(payload) else ZeroBytes(4);
            forall flag :: Unwrap(flag, payload, trailer) == SkipExtraInfo(flag, payload)
  {
    hide Pack, Remainder, SkipExtraInfo;
  }

  /**
   A written frame reads back as the MySQL packet it carries exactly when its length fits the 3-byte length field of
   the compression header (and the negotiated magic is the one the reader knows); otherwise the reader rejects it.
   */
  lemma {:induction false} FrameRoundTrip(chunk: seq<byte>, seqNo: byte, infos: seq<ExtraInfo>, cfg: Settings,
                                          rest: seq<byte>)
    requires OB20HeaderLen + |FramePayload(chunk, seqNo, infos)| + TailLen < Radix(4)
    ensures ReadFrame(FrameBytes(chunk, seqNo, infos, cfg) + rest) ==
            if cfg.magic % Radix(2) == OB20Magic
               && OB20HeaderLen + |FramePayload(chunk, seqNo, infos)| + TailLen < Radix(3)
            then Frame(MySQLPacket(chunk, seqNo), rest) else Stop(BadFrame)
  {
    hide Pack, Remainder, DecodeHeader, EncodeHeader, ReadFrame, ReadAfterHeader, SkipExtraInfo, FramePayload, MySQLPacket,
         FrameHeader, Radix;
    var payload := FramePayload(chunk, seqNo, infos);
    var header := EncodeHeader(FrameHeader(|payload|, seqNo, infos != [], cfg), cfg.checksum);
    var trailer := if cfg.checksum then PayloadChecksum(payload) else ZeroBytes(4);
    assert FrameBytes(chunk, seqNo, infos, cfg) == header + payload + trailer;
    HeaderAccepted(|payload|, seqNo, infos != [], cfg);
    TrailerAccepted(payload, cfg.checksum);
    hide PayloadChecksum;
    ReadFrameParts(header, payload, trailer, rest);
    ReadParts(DecodeHeader(header), payload, trailer, rest);
    LengthFits(OB20HeaderLen + |payload| + TailLen);
    if DecodeHeader(header).Some? {
      SkipWritten(chunk, seqNo, infos, DecodeHeader(header).value.flag);
    }
  }

  // ---- corruption ----

  /**
   Changing up to two adjacent bytes of an accepted header is noticed exactly when the stored checksum is nonzero or
   the change shows in magic or version: a stored zero switches the check off.
   */
  lemma {:induction false} HeaderCorruptionRejected(before: seq<byte>, a: seq<byte>, b: seq<byte>, after: seq<byte>,
                                                    stored: seq<byte>)
    requires |a| == |b| <= 2 && a != b && |before| + |a| + |after| == 29 && |stored| == 2
    requires DecodeHeader(before + a + after + stored).Some?
    ensures var h := ParseFields(before + b + after);
            DecodeHeader(before + b + after + stored) == None
            <==> stored != ZeroBytes(2) || h.magic != OB20Magic || h.version != OB20Version
  {
    hide Pack, Remainder, DecodeHeader, ParseFields;
    DecodeParts(before + a + after, stored);
    DecodeParts(before + b + after, stored);
    BurstDetected(before, a, b, after, Crc16Poly);
    if HeaderChecksum(before + a + after) == HeaderChecksum(before + b + after) {
      PackInjective(Remainder(before + a + after, Crc16Poly), Remainder(before + b + after, Crc16Poly));
    }
  }

  lemma {:induction false} DecodeParts(covered: seq<byte>, stored: seq<byte>)
    requires |covered| == 29 && |stored| == 2
    ensures var h := ParseFields(covered);
            DecodeHeader(covered + stored) ==
            if h.magic != OB20Magic || h.version != OB20Version then None
            else if stored != ZeroBytes(2) && stored != HeaderChecksum(covered) then None
            else Some(h)
  {
    hide Value;
    var buf := covered + stored;
    assert buf[..29] == covered && buf[29..31] == stored;
    assert forall i, j :: 0 <= i <= j <= 29 ==> buf[i..j] == covered[i..j];
  }

  /** A header whose connection id was changed on the way and that is accepted, because its stored checksum is zero. */
  lemma {:induction false} CorruptHeaderAccepted(before: seq<byte>, a: byte, b: byte, after: seq<byte>)
    requires before == [0, 0, 0, 0, 0, 0, 0, 0xAB, 0x20, 20, 0] && |after| == 17 && a != b
    ensures DecodeHeader(before + [a] + after + ZeroBytes(2)).Some?
    ensures DecodeHeader(before + [b] + after + ZeroBytes(2)).Some?
    ensures DecodeHeader(before + [a] + after + ZeroBytes(2)) != DecodeHeader(before + [b] + after + ZeroBytes(2))
  {
    hide Value, DecodeHeader;
    var x, y := before + [a] + after, before + [b] + after;
    MagicAndVersion(x);
    MagicAndVersion(y);
    DecodeParts(x, ZeroBytes(2));
    DecodeParts(y, ZeroBytes(2));
    assert x[11..15][0] == a && y[11..15][0] == b;
    LittleEndianOfValue(x[11..15]);
    LittleEndianOfValue(y[11..15]);
  }

  lemma {:induction false} MagicAndVersion(x: seq<byte>)
    requires |x| >= 29 && x[7..11] == [0xAB, 0x20, 20, 0]
    ensures ParseFields(x).magic == OB20Magic && ParseFields(x).version == OB20Version
  {
    assert x[7..9] == x[7..11][0..2] == [0xAB, 0x20] && x[9..11] == x[7..11][2..4] == [20, 0];
    TwoBytes(0xAB, 0x20);
    TwoBytes(20, 0);
  }

  lemma {:induction false} TwoBytes(low: byte, high: byte)
    ensures Value([low, high]) == low as int + 256 * high as int
  {
    assert [low, high][1..] == [high];
    assert Value([high]) == high as int;
  }

  /** A zero is also what checksums that are on can store: for any header that ends in the checksum of its first part. */
  lemma {:induction false} ZeroHeaderChecksum(covered: seq<byte>)
    requires |covered| == 27
    ensures HeaderChecksum(covered + HeaderChecksum(covered)) == ZeroBytes(2)
  {
    hide Remainder, Pack;
    OwnChecksum(covered, Crc16Poly);
    PackZero(16);
  }

  lemma {:induction false} PackZero(n: nat)
    requires n % 8 == 0
    ensures Pack(Zeros(n)) == ZeroBytes(n / 8)
  {
    if n > 0 {
      assert Zeros(n)[..8] == Zeros(8) && Zeros(n)[8..] == Zeros(n - 8);
      PackZero(n - 8);
      assert IntOf(Zeros(8)) == 0 by {
        ZeroBits(8);
      }
    }
  }

  lemma {:induction false} ZeroBits(n: nat)
    ensures IntOf(Zeros(n)) == 0
  {
    if n > 0 {
      assert Zeros(n)[1..] == Zeros(n - 1);
      ZeroBits(n - 1);
    }
  }

  /**
   Changing up to four adjacent payload bytes of an accepted frame is noticed exactly when the trailer is nonzero or
   the extra-info block no longer fits; otherwise another body is delivered.
   */
  lemma {:induction false} PayloadCorruptionRejected(header: seq<byte>, before: seq<byte>, a: seq<byte>, b: seq<byte>,
                                                     after: seq<byte>, trailer: seq<byte>, rest: seq<byte>)
    requires |header| == TotalHeaderLen && |a| == |b| <= 4 && a != b && |trailer| == 4
    requires DecodeHeader(header).Some? && DecodeHeader(header).value.payloadLen == |before + a + after|
    requires ReadFrame(header + (before + a + after) + trailer + rest).Frame?
    ensures var skipped := SkipExtraInfo(DecodeHeader(header).value.flag, before + b + after);
            ReadFrame(header + (before + b + after) + trailer + rest) ==
            if trailer != ZeroBytes(4) || skipped.Err? then Stop(BadFrame) else Frame(skipped.value, rest)
  {
    hide Pack, Remainder, DecodeHeader, ReadFrame, ReadAfterHeader;
    var good, bad := before + a + after, before + b + after;
    ReadFrameParts(header, good, trailer, rest);
    ReadFrameParts(header, bad, trailer, rest);
    ReadParts(DecodeHeader(header), good, trailer, rest);
    ReadParts(DecodeHeader(header), bad, trailer, rest);
    BurstDetected(before, a, b, after, Crc32Poly);
    if PayloadChecksum(good) == PayloadChecksum(bad) {
      PackInjective(Remainder(good, Crc32Poly), Remainder(bad, Crc32Poly));
    }
  }

  /**
   With checksums on, a payload that ends in the checksum of the rest of it is sent with a zero trailer, and any other
   payload of its length is accepted in its place.
   */
  lemma {:induction false} CorruptPayloadAccepted(data: seq<byte>, other: seq<byte>, seqNo: byte, cfg: Settings,
                                                  rest: seq<byte>)
    requires |other| == |data| + 4 && OB20HeaderLen + |other| + TailLen < Radix(3) && cfg.magic % Radix(2) == OB20Magic
    requires cfg.checksum
    ensures var payload := data + PayloadChecksum(data);
            var header := EncodeHeader(FrameHeader(|payload|, seqNo, false, cfg), true);
            && Sealed(payload, seqNo, false, cfg) == header + payload + ZeroBytes(4)
            && ReadFrame(header + other + ZeroBytes(4) + rest) == Frame(other, rest)
  {
    hide Pack, Remainder, DecodeHeader, EncodeHeader, ReadFrame, ReadAfterHeader, FrameHeader, Radix;
    var payload := data + PayloadChecksum(data);
    var header := EncodeHeader(FrameHeader(|payload|, seqNo, false, cfg), true);
    OwnChecksum(data, Crc32Poly);
    PackZero(32);
    RadixValues();
    HeaderAccepted(|other|, seqNo, false, cfg);
    ReadFrameParts(header, other, ZeroBytes(4), rest);
    ReadParts(DecodeHeader(header), other, ZeroBytes(4), rest);
    LengthFits(OB20HeaderLen + |other| + TailLen);
  }
}
