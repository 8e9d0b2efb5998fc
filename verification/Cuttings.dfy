/** A byte stream cut into OB 2.0 frames at will: what the reader makes of it does not depend on where the cuts are. */
module Cuttings {
  import opened Bytes
  import opened BitStrings
  import opened Checksums
  import opened Frames
  import PacketConns

  /** One frame: any part of the stream, even none of it, behind an extra-info block or not. */
  datatype Piece = Piece(body: seq<byte>, extra: Option<seq<byte>>, seqNo: byte)

  function PiecePayload(p: Piece): (s: seq<byte>)
    ensures |s| == |p.body| + if p.extra.Some? then ExtraLengthField + |p.extra.value| else 0
  {
    match p.extra
    case None => p.body
    case Some(e) => LittleEndian(|e|, 4) + e + p.body
  }

  function PieceWire(p: Piece, cfg: Settings): (s: seq<byte>) {
    Sealed(PiecePayload(p), p.seqNo, p.extra.Some?, cfg)
  }

  predicate Fits(p: Piece) {
    OB20HeaderLen + |PiecePayload(p)| + TailLen <= MaxPayload
  }

  /** The frames of a cutting, in order. */
  function CutWire(ps: seq<Piece>, cfg: Settings): (s: seq<byte>) {
    if ps == [] then [] else PieceWire(ps[0], cfg) + CutWire(ps[1..], cfg)
  }

  /** The stream that was cut. */
  function Joined(ps: seq<Piece>): (s: seq<byte>) {
    if ps == [] then [] else ps[0].body + Joined(ps[1..])
  }

  lemma {:induction false} SkipPiece(p: Piece, flag: nat)
    requires Fits(p) && (flag % 2 == 1 <==> p.extra.Some?)
    ensures SkipExtraInfo(flag, PiecePayload(p)) == Ok(p.body)
  {
    hide LittleEndian, Value, Radix;
    RadixValues();
    if p.extra.Some? {
      var e, s := p.extra.value, PiecePayload(p);
      assert s[0..4] == LittleEndian(|e|, 4);
      ValueOfLittleEndian(|e|, 4);
      assert s[4 + |e|..] == p.body;
    }
  }

  lemma {:induction false} PieceReads(p: Piece, cfg: Settings, rest: seq<byte>)
    requires Fits(p) && PacketConns.MagicKnown(cfg)
    ensures ReadFrame(PieceWire(p, cfg) + rest) == Frame(p.body, rest)
  {
    hide Pack, Remainder, DecodeHeader, EncodeHeader, ReadFrame, ReadAfterHeader, SkipExtraInfo, FrameHeader, Radix,
         PiecePayload;
    RadixValues();
    var payload := PiecePayload(p);
    var header := EncodeHeader(FrameHeader(|payload|, p.seqNo, p.extra.Some?, cfg), cfg.checksum);
    var trailer := if cfg.checksum then PayloadChecksum(payload) else ZeroBytes(4);
    assert PieceWire(p, cfg) + rest == header + payload + trailer + rest;
    HeaderAccepted(|payload|, p.seqNo, p.extra.Some?, cfg);
    ReadFrameParts(header, payload, trailer, rest);
    ReadParts(DecodeHeader(header), payload, trailer, rest);
    LengthFits(OB20HeaderLen + |payload| + TailLen);
    SkipPiece(p, DecodeHeader(header).value.flag);
  }

  lemma {:induction false} CutReads(ps: seq<Piece>, cfg: Settings, rest: seq<byte>)
    requires PacketConns.MagicKnown(cfg) && forall i :: 0 <= i < |ps| ==> Fits(ps[i])
    ensures Bodies(CutWire(ps, cfg) + rest) == Joined(ps) + Bodies(rest)
    ensures Failure(CutWire(ps, cfg) + rest) == Failure(rest)
  {
    hide PieceWire, Fits, PacketConns.MagicKnown, ReadFrame;
    if ps == [] {
      assert CutWire(ps, cfg) + rest == rest && Joined(ps) + Bodies(rest) == Bodies(rest);
    } else {
      var more := CutWire(ps[1..], cfg) + rest;
      assert CutWire(ps, cfg) + rest == PieceWire(ps[0], cfg) + more;
      PieceReads(ps[0], cfg, more);
      CutReads(ps[1..], cfg, rest);
    }
  }

  /** Frame boundaries do not matter: any two cuttings of one stream give the reader the same packets and errors. */
  lemma {:induction false} CutIndependent(a: seq<Piece>, b: seq<Piece>, cfg: Settings, buffered: seq<byte>,
                                          rest: seq<byte>, k: nat)
    requires PacketConns.MagicKnown(cfg) && Joined(a) == Joined(b)
    requires (forall i :: 0 <= i < |a| ==> Fits(a[i])) && (forall i :: 0 <= i < |b| ==> Fits(b[i]))
    ensures var s, t := CutWire(a, cfg) + rest, CutWire(b, cfg) + rest;
            && PacketConns.DeframeMany(buffered + Bodies(s), k) == PacketConns.DeframeMany(buffered + Bodies(t), k)
            && PacketConns.DeframeMany(buffered + Bodies(s), k) ==
               PacketConns.DeframeMany(buffered + (Joined(a) + Bodies(rest)), k)
            && Failure(s) == Failure(t)
  {
    hide PacketConns.DeframeMany, CutWire, Joined, Bodies, Failure;
    CutReads(a, cfg, rest);
    CutReads(b, cfg, rest);
  }
}
