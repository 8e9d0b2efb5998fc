/** How a client tells OK, EOF, ERR and row packets apart, against what a server sends. */
module Terminators {
  import opened Bytes
  import opened Lenenc

  const OKHeader: byte := 0x00
  const EOFHeader: byte := 0xfe
  const ErrHeader: byte := 0xff

  // ---- the client's classification ----

  predicate MoreResults(status: nat) {
    (status / 8) % 2 == 1
  }

  predicate StateChanged(status: nat) {
    (status / 0x4000) % 2 == 1
  }

  predicate IsErr(packet: seq<byte>) {
    |packet| > 0 && packet[0] == ErrHeader
  }

  predicate IsEOF(packet: seq<byte>) {
    (|packet| == 1 || |packet| == 5) && packet[0] == EOFHeader
  }

  /** The status flags of an OK-shaped packet with the given header byte, or None when it does not parse as one. */
  function StatusFlags(packet: seq<byte>, header: byte, track: bool): (r: Option<nat>)
  {
    if |packet| == 0 || packet[0] != header then None
    else
      match ReadInt(packet[1..])
      case BadInt(_) => None
      case Int(_, used1, _) =>
        match ReadInt(packet[1 + used1..])
        case BadInt(_) => None
        case Int(_, used2, _) => StatusAt(packet[1 + used1 + used2..], track)
  }

  /** The part of StatusFlags after the two counters. */
  function StatusAt(s: seq<byte>, track: bool): (r: Option<nat>)
  {
    if |s| < 4 then None
    else
      var status := Value(s[0..2]);
      if |s| == 4 || !track || TrackedTail(s[4..], status) then Some(status) else None
  }

  /** With session tracking the rest must be an info string and, when flagged, a state-change string, and no more. */
  predicate TrackedTail(s: seq<byte>, status: nat) {
    match ReadString(s)
    case BadStr(_) => false
    case _ =>
      var after := s[Skip(ReadString(s))..];
      if StateChanged(status) then
        match ReadString(after)
        case BadStr(_) => false
        case _ => Skip(ReadString(after)) == |after|
      else after == []
  }

  predicate IsResultSetOK(packet: seq<byte>, track: bool) {
    StatusFlags(packet, EOFHeader, track).Some?
  }

  predicate IsTerminator(packet: seq<byte>, track: bool) {
    IsEOF(packet) || IsResultSetOK(packet, track)
  }

  predicate EndsRows(packet: seq<byte>, resultSetOK: bool, track: bool) {
    if resultSetOK then IsResultSetOK(packet, track) else IsEOF(packet)
  }

  predicate HasMoreResults(packet: seq<byte>, track: bool) {
    if IsEOF(packet) then |packet| >= 5 && MoreResults(Value(packet[3..5]))
    else
      match StatusFlags(packet, EOFHeader, track)
      case None => false
      case Some(status) => MoreResults(status)
  }

  /** What handleOK takes from a packet: two counters as signed 64-bit numbers, and the status flags. */
  datatype OKInfo = OKInfo(affectedRows: int, lastInsertID: int, status: nat)

  /** int64(n) */
  function Signed64(n: nat): (i: int) {
    if n >= 0x8000_0000_0000_0000 then n - 0x1_0000_0000_0000_0000 else n
  }

  /** What handleOK makes of the first packet of a response, or None for an error. */
  function HandleOK(packet: seq<byte>): (r: Option<OKInfo>)
  {
    if |packet| == 0 || packet[0] != OKHeader then None
    else
      match ReadInt(packet[1..])
      case BadInt(_) => None
      case Int(affected, used1, _) =>
        match ReadInt(packet[1 + used1..])
        case BadInt(_) => None
        case Int(lastID, used2, _) =>
          var s := packet[1 + used1 + used2..];
          if s == [] then Some(OKInfo(Signed64(affected), Signed64(lastID), 0))
          else if |s| < 4 then None
          else Some(OKInfo(Signed64(affected), Signed64(lastID), Value(s[0..2])))
  }

  // ---- what a server sends ----

  /** The body of an OK packet: two counters, status, warnings and an optional trailer. */
  datatype OK = OK(affected: nat, lastID: nat, status: nat, warnings: nat, trailer: Trailer)

  datatype Trailer = NoTrailer | Info(info: seq<byte>) | Tracked(info: seq<byte>, changes: seq<byte>)

  function TrailerBytes(t: Trailer, track: bool): (s: seq<byte>)
  {
    match t
    case NoTrailer => []
    case Info(info) => if track then PutString(info) else info
    case Tracked(info, changes) => PutString(info) + PutString(changes)
  }

  function OKBytes(header: byte, ok: OK, track: bool): (s: seq<byte>)
  {
    [header] + PutInt(ok.affected) + PutInt(ok.lastID) + LittleEndian(ok.status, 2) + LittleEndian(ok.warnings, 2)
    + TrailerBytes(ok.trailer, track)
  }

  const U64: nat := 0x1_0000_0000_0000_0000

  predicate ValidOK(ok: OK, track: bool) {
    && ok.affected < U64 && ok.lastID < U64 && ok.status < 0x1_0000 && ok.warnings < 0x1_0000
    && match ok.trailer
       case NoTrailer => true
       case Info(info) => |info| < U64 && !StateChanged(ok.status)
       case Tracked(info, changes) => track && |info| < U64 && |changes| < U64 && StateChanged(ok.status)
  }

  function EOFBytes(warnings: nat, status: nat): (s: seq<byte>)
  {
    [EOFHeader] + LittleEndian(warnings, 2) + LittleEndian(status, 2)
  }

  // ---- the client reads what the server meant ----

  lemma {:induction false} CountersRead(header: byte, a: nat, b: nat, s: seq<byte>)
    requires a < U64 && b < U64
    ensures var packet := [header] + PutInt(a) + PutInt(b) + s;
            && ReadInt(packet[1..]) == Int(a, |PutInt(a)|, false)
            && ReadInt(packet[1 + |PutInt(a)|..]) == Int(b, |PutInt(b)|, false)
            && packet[1 + |PutInt(a)| + |PutInt(b)|..] == s
  {
    hide PutInt, ReadInt;
    var packet := [header] + PutInt(a) + PutInt(b) + s;
    assert packet[1..] == PutInt(a) + (PutInt(b) + s);
    assert packet[1 + |PutInt(a)|..] == PutInt(b) + s;
    IntRoundTrip(a, PutInt(b) + s);
    IntRoundTrip(b, s);
  }

  lemma {:induction false} TrackedTailRead(t: Trailer, status: nat)
    requires match t
             case NoTrailer => false
             case Info(info) => |info| < U64 && !StateChanged(status)
             case Tracked(info, changes) => |info| < U64 && |changes| < U64 && StateChanged(status)
    ensures TrackedTail(TrailerBytes(t, true), status)
  {
    hide PutString, ReadString, StateChanged;
    var s := TrailerBytes(t, true);
    var second := if t.Info? then [] else PutString(t.changes);
    assert s == PutString(t.info) + second;
    StringRoundTrip(t.info, second);
    assert s[|PutString(t.info)|..] == second;
    if t.Tracked? {
      StringRoundTrip(t.changes, []);
      assert PutString(t.changes) + [] == PutString(t.changes);
    }
  }

  /** Every valid OK packet is recognised under its header, and its status is read back. */
  lemma {:induction false} OKRecognised(header: byte, ok: OK, track: bool)
    requires ValidOK(ok, track)
    ensures StatusFlags(OKBytes(header, ok, track), header, track) == Some(ok.status)
    ensures header == OKHeader ==>
              HandleOK(OKBytes(header, ok, track)) == Some(OKInfo(Signed64(ok.affected), Signed64(ok.lastID), ok.status))
  {
    hide PutInt, ReadInt, LittleEndian, Value, StateChanged, TrailerBytes, TrackedTail, Radix;
    var tail := LittleEndian(ok.status, 2) + LittleEndian(ok.warnings, 2) + TrailerBytes(ok.trailer, track);
    assert OKBytes(header, ok, track) == [header] + PutInt(ok.affected) + PutInt(ok.lastID) + tail;
    CountersRead(header, ok.affected, ok.lastID, tail);
    RadixValues();
    ValueOfLittleEndian(ok.status, 2);
    assert tail[0..2] == LittleEndian(ok.status, 2);
    assert tail[4..] == TrailerBytes(ok.trailer, track);
    if track && ok.trailer != NoTrailer {
      TrackedTailRead(ok.trailer, ok.status);
    }
    if ok.trailer == NoTrailer {
      NoTrailerBytes(track);
    }
  }

  lemma {:induction false} NoTrailerBytes(track: bool)
    ensures TrailerBytes(NoTrailer, track) == []
  {
  }

  /** An EOF packet is recognised as one, is never mistaken for an OK, and its status is read back. */
  lemma {:induction false} EOFRecognised(warnings: nat, status: nat, track: bool)
    requires status < 0x1_0000
    ensures var p := EOFBytes(warnings, status);
            IsEOF(p) && !IsResultSetOK(p, track) && (HasMoreResults(p, track) <==> MoreResults(status))
  {
    hide LittleEndian, Value, Radix, IsResultSetOK, MoreResults;
    var p := EOFBytes(warnings, status);
    assert p[3..5] == LittleEndian(status, 2);
    RadixValues();
    ValueOfLittleEndian(status, 2);
    ShapesDisjoint(p, track);
  }

  /** The two terminator shapes exclude each other: an OK packet has at least seven bytes. */
  lemma {:induction false} ShapesDisjoint(packet: seq<byte>, track: bool)
    ensures !(IsEOF(packet) && IsResultSetOK(packet, track))
  {
    hide ReadInt, Value, TrackedTail;
  }

  lemma {:induction false} OKTerminates(ok: OK, track: bool)
    requires ValidOK(ok, track)
    ensures var p := OKBytes(EOFHeader, ok, track);
            !IsEOF(p) && IsResultSetOK(p, track) && (HasMoreResults(p, track) <==> MoreResults(ok.status))
  {
    hide OKBytes, StatusFlags, MoreResults, IsEOF, ValidOK;
    OKRecognised(EOFHeader, ok, track);
    ShapesDisjoint(OKBytes(EOFHeader, ok, track), track);
  }

  /** An OK packet may end after its counters, and has no status then. */
  lemma {:induction false} ShortOK(affected: nat, lastID: nat)
    requires affected < U64 && lastID < U64
    ensures HandleOK([OKHeader] + PutInt(affected) + PutInt(lastID)) ==
            Some(OKInfo(Signed64(affected), Signed64(lastID), 0))
  {
    hide PutInt, ReadInt;
    CountersRead(OKHeader, affected, lastID, []);
    var s := [OKHeader] + PutInt(affected) + PutInt(lastID);
    assert s + [] == s;
  }

  /** Packets byte by byte: the headers, and the status bits 0x0008 and 0x4000. */
  lemma {:induction false} ConcretePackets()
    ensures IsErr([0xff]) && !IsErr([]) && IsErr([0xff, 0, 0]) && !IsErr([0xfe, 0, 0]) && !IsErr([0, 0, 0])
    ensures IsEOF([0xfe, 0, 0, 2, 0]) && IsEOF([0xfe]) && !IsEOF([0xff]) && !IsEOF([0xfe, 0, 0, 2, 0, 0])
    ensures HasMoreResults([0xfe, 0, 0, 8, 0], false) && !HasMoreResults([0xfe, 0, 0, 0xf7, 0xff], false)
    ensures MoreResults(8) && !MoreResults(0xfff7) && StateChanged(0x4000) && !StateChanged(0xbfff)
  {
    hide IsResultSetOK, HandleOK;
    StatusValue(8, 0);
    StatusValue(0xf7, 0xff);
    assert [0xfe, 0, 0, 8, 0][3..5] == [8, 0] && [0xfe, 0, 0, 0xf7, 0xff][3..5] == [0xf7, 0xff];
  }

  /** OK packets byte by byte: the counters 5 and 7 and the status 8. */
  lemma {:induction false} ConcreteOKs()
    ensures IsResultSetOK([0xfe, 0, 0, 2, 0, 0, 0], false) && !IsResultSetOK([0, 0, 0, 2, 0, 0, 0], false)
    ensures HandleOK([0, 5, 7, 8, 0, 0, 0]) == Some(OKInfo(5, 7, 8))
  {
    StatusValue(2, 0);
    StatusValue(8, 0);
    CounterBytes([0xfe, 0, 0, 2, 0, 0, 0]);
    CounterBytes([0, 5, 7, 8, 0, 0, 0]);
  }

  lemma {:induction false} StatusValue(low: byte, high: byte)
    ensures Value([low, high]) == low as int + 256 * high as int
  {
    assert [low, high][1..] == [high] && [high][1..] == [];
    assert Value([high]) == high as int;
  }

  lemma {:induction false} CounterBytes(s: seq<byte>)
    requires |s| == 7 && s[1] < 251 && s[2] < 251
    ensures ReadInt(s[1..]) == Int(s[1], 1, false) && ReadInt(s[2..]) == Int(s[2], 1, false)
    ensures s[3..][0..2] == [s[3], s[4]]
  {
    hide Value;
  }

  // ---- exactly what is accepted ----

  /** A counter: an integer in any of its forms, or the NULL marker, which counts as 0. */
  predicate Counts(s: seq<byte>, n: nat) {
    SpellsInt(s, n) || (s == [0xfb] && n == 0)
  }

  /** The header, one counter up to `i` and one up to `j`. */
  predicate Heads(packet: seq<byte>, header: byte, i: nat, j: nat, a: nat, b: nat) {
    1 <= i <= j <= |packet| && packet[0] == header && Counts(packet[1..i], a) && Counts(packet[i..j], b)
  }

  ghost predicate CountedText(s: seq<byte>) {
    s == [0xfb] || exists t :: SpellsString(s, t)
  }

  /** An info string and, when the state has changed, the changes. */
  ghost predicate Tracks(s: seq<byte>, changed: bool) {
    exists k :: 0 <= k <= |s| && CountedText(s[..k]) && if changed then CountedText(s[k..]) else k == |s|
  }

  ghost predicate FlagsAt(packet: seq<byte>, j: nat, track: bool, status: nat) {
    && j + 4 <= |packet| && status == packet[j] as int + 256 * packet[j + 1] as int
    && (|packet| == j + 4 || !track || Tracks(packet[j + 4..], (status / 0x4000) % 2 == 1))
  }

  lemma {:induction false} CounterRead(s: seq<byte>, k: nat, n: nat)
    requires k <= |s|
    ensures Counts(s[..k], n) <==> ReadInt(s).Int? && ReadInt(s).consumed == k && ReadInt(s).value == n
  {
    hide ReadInt, SpellsInt;
    IntExact(s, k, n);
  }

  /** The two counters in front of a packet are its heads, and no others are. */
  lemma {:induction false} HeadsRead(packet: seq<byte>, header: byte, i: nat, j: nat, a: nat, b: nat)
    requires |packet| > 0 && packet[0] == header
    ensures Heads(packet, header, i, j, a, b) <==>
            && 1 <= i <= j <= |packet|
            && var first := ReadInt(packet[1..]);
               first.Int? && first.consumed == i - 1 && first.value == a
               && var second := ReadInt(packet[i..]); second.Int? && second.consumed == j - i && second.value == b
  {
    hide ReadInt, Counts;
    if 1 <= i <= j <= |packet| {
      CounterRead(packet[1..], i - 1, a);
      CounterRead(packet[i..], j - i, b);
      assert packet[1..][..i - 1] == packet[1..i] && packet[i..][..j - i] == packet[i..j];
    }
  }

  lemma {:induction false} TextRead(s: seq<byte>, k: nat)
    requires k <= |s|
    ensures CountedText(s[..k]) <==> !ReadString(s).BadStr? && Skip(ReadString(s)) == k
  {
    hide ReadString, SpellsString;
    StringExact(s, 0, []);
    if s[..k] == [0xfb] {
      assert s[0] == 0xfb;
    } else if CountedText(s[..k]) {
      var t :| SpellsString(s[..k], t);
      StringExact(s, k, t);
    } else if ReadString(s).Str? {
      StringExact(s, ReadString(s).consumed, ReadString(s).value);
    }
  }

  lemma {:induction false} TrackedTailExact(s: seq<byte>, status: nat)
    ensures TrackedTail(s, status) <==> Tracks(s, StateChanged(status))
  {
    hide ReadString, CountedText, StateChanged;
    forall k | 0 <= k <= |s|
      ensures CountedText(s[..k]) <==> !ReadString(s).BadStr? && Skip(ReadString(s)) == k
      ensures CountedText(s[k..]) <==> !ReadString(s[k..]).BadStr? && Skip(ReadString(s[k..])) == |s| - k
    {
      TextRead(s, k);
      TextRead(s[k..], |s| - k);
      assert s[k..][..|s| - k] == s[k..];
    }
    if !ReadString(s).BadStr? {
      var k := Skip(ReadString(s));
      assert 0 <= k <= |s| by { SkipFits(s); }
    }
  }

  lemma {:induction false} SkipFits(s: seq<byte>)
    requires !ReadString(s).BadStr?
    ensures Skip(ReadString(s)) <= |s|
  {
  }

  /** A packet is taken for an OK with some header and status exactly when it is the header, two counters, the status
      and two more bytes, and with session tracking nothing more or the counted strings the status announces. */
  lemma {:induction false} FlagsExact(packet: seq<byte>, header: byte, track: bool, status: nat)
    ensures StatusFlags(packet, header, track) == Some(status) <==>
            exists i, j, a, b :: Heads(packet, header, i, j, a, b) && FlagsAt(packet, j, track, status)
  {
    hide ReadInt, Heads, FlagsAt, StatusAt;
    if StatusFlags(packet, header, track) == Some(status) {
      var first := ReadInt(packet[1..]);
      var i := 1 + first.consumed;
      var second := ReadInt(packet[i..]);
      var j := i + second.consumed;
      HeadsRead(packet, header, i, j, first.value, second.value);
      FlagsRead(packet, j, track, status);
    }
    if i, j, a, b :| Heads(packet, header, i, j, a, b) && FlagsAt(packet, j, track, status) {
      HeadsStart(packet, header, i, j, a, b);
      HeadsRead(packet, header, i, j, a, b);
      FlagsRead(packet, j, track, status);
    }
  }

  lemma {:induction false} HeadsStart(packet: seq<byte>, header: byte, i: nat, j: nat, a: nat, b: nat)
    requires Heads(packet, header, i, j, a, b)
    ensures 1 <= i <= j <= |packet| && packet[0] == header
  {
  }

  lemma {:induction false} FlagsRead(packet: seq<byte>, j: nat, track: bool, status: nat)
    requires j <= |packet|
    ensures FlagsAt(packet, j, track, status) <==> StatusAt(packet[j..], track) == Some(status)
  {
    hide TrackedTail, Tracks, Value;
    var s := packet[j..];
    if |s| >= 4 {
      StatusValue(s[0], s[1]);
      assert s[0..2] == [s[0], s[1]] && s[4..] == packet[j + 4..];
      TrackedTailExact(s[4..], status);
    }
  }

  /** The first packet of a response is an OK exactly when it is the header and two counters, followed by nothing or by
      the status and two more bytes at least; the counters are 64-bit numbers with a sign. */
  lemma {:induction false} HandleOKExact(packet: seq<byte>, info: OKInfo)
    ensures HandleOK(packet) == Some(info) <==>
            exists i, j, a, b :: Heads(packet, 0, i, j, a, b) && InfoAt(packet, j, a, b, info)
  {
    hide ReadInt, Heads, InfoAt;
    if HandleOK(packet) == Some(info) {
      var first := ReadInt(packet[1..]);
      var i := 1 + first.consumed;
      var second := ReadInt(packet[i..]);
      var j := i + second.consumed;
      HeadsRead(packet, 0, i, j, first.value, second.value);
      InfoRead(packet, j, first.value, second.value, info);
    }
    if i, j, a, b :| Heads(packet, 0, i, j, a, b) && InfoAt(packet, j, a, b, info) {
      HeadsStart(packet, 0, i, j, a, b);
      HeadsRead(packet, 0, i, j, a, b);
      InfoRead(packet, j, a, b, info);
    }
  }

  predicate InfoAt(packet: seq<byte>, j: nat, a: nat, b: nat, info: OKInfo) {
    && (j == |packet| || j + 4 <= |packet|)
    && Wraps(info.affectedRows, a) && Wraps(info.lastInsertID, b)
    && info.status == if j == |packet| then 0 else packet[j] as int + 256 * packet[j + 1] as int
  }

  /** The number with a sign that has the same 64 bits. */
  predicate Wraps(i: int, n: nat) {
    (i == n && n < 0x8000_0000_0000_0000) || (i == n - 0x1_0000_0000_0000_0000 && n >= 0x8000_0000_0000_0000)
  }

  lemma {:induction false} InfoRead(packet: seq<byte>, j: nat, a: nat, b: nat, info: OKInfo)
    requires j <= |packet|
    ensures InfoAt(packet, j, a, b, info) <==>
            var s := packet[j..];
            && (s == [] || |s| >= 4) && info.affectedRows == Signed64(a) && info.lastInsertID == Signed64(b)
            && info.status == if s == [] then 0 else Value(s[0..2])
  {
    hide Value;
    var s := packet[j..];
    if |s| >= 4 {
      StatusValue(s[0], s[1]);
      assert s[0..2] == [s[0], s[1]];
    }
  }

  /** The bits 0x0008 and 0x4000 of every status. */
  lemma {:induction false} StatusBits(high: nat, bit: nat, low: nat)
    requires bit < 2
    ensures low < 8 ==> (MoreResults(16 * high + 8 * bit + low) <==> bit == 1)
    ensures low < 0x4000 ==> (StateChanged(0x8000 * high + 0x4000 * bit + low) <==> bit == 1)
  {
  }

  /** More results follow when the bit is set in the status of an EOF packet of five bytes or of an OK, and else not. */
  lemma {:induction false} MoreExact(packet: seq<byte>, track: bool)
    ensures HasMoreResults(packet, track) <==>
            if IsEOF(packet) then |packet| == 5 && MoreResults(packet[3] as int + 256 * packet[4] as int)
            else exists status :: StatusFlags(packet, 0xfe, track) == Some(status) && MoreResults(status)
  {
    hide StatusFlags, MoreResults, Value;
    if |packet| == 5 {
      StatusValue(packet[3], packet[4]);
      assert packet[3..5] == [packet[3], packet[4]];
    }
  }
}
