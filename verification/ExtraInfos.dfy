/** The type-length-value entries of an OB 2.0 extra-info block, read back. */
module ExtraInfos {
  import opened Bytes
  import opened Frames

  const EntryHeader: nat := 6

  /** Entries in front of a result. */
  function After(infos: seq<ExtraInfo>, r: Result<seq<ExtraInfo>>): Result<seq<ExtraInfo>> {
    match r
    case Err(e) => Err(e)
    case Ok(more) => Ok(infos + more)
  }

  lemma {:induction false} AfterAfter(a: seq<ExtraInfo>, b: seq<ExtraInfo>, r: Result<seq<ExtraInfo>>)
    ensures After(a, After(b, r)) == After(a + b, r) && After([], r) == r
  {
    if r.Ok? {
      assert a + (b + r.value) == (a + b) + r.value;
      assert [] + r.value == r.value;
    }
  }

  /** Fewer than six bytes left end the block without an error. */
  function Entries(data: seq<byte>): (r: Result<seq<ExtraInfo>>)
    decreases |data|
  {
    if |data| < EntryHeader then Ok([])
    else
      var end := EntryHeader + Value(data[2..6]);
      if |data| < end then Err(UnexpectedEOF)
      else After([ExtraInfo(Value(data[0..2]), data[EntryHeader..end])], Entries(data[end..]))
  }

  /** ParseOB20ExtraInfo. */
  method ParseOB20ExtraInfo(data: seq<byte>) returns (r: Result<seq<ExtraInfo>>)
    ensures r == Entries(data)
  {
    hide Value, After, Entries;
    var infos: seq<ExtraInfo> := [];
    var pos := 0;
    AfterAfter([], [], Entries(data));
    assert data[0..] == data;
    while pos < |data|
      invariant pos <= |data|
      invariant Entries(data) == After(infos, Entries(data[pos..]))
      decreases |data| - pos
    {
      if |data[pos..]| < EntryHeader {
        break;
      }
      EntryAt(data, pos);
      var typ := Value(data[pos..pos + 2]);
      var length := Value(data[pos + 2..pos + 6]);
      pos := pos + EntryHeader;
      if |data[pos..]| < length {
        NothingAfter(infos, Err(UnexpectedEOF));
        return Err(UnexpectedEOF);
      }
      AfterAfter(infos, [ExtraInfo(typ, data[pos..pos + length])], Entries(data[pos + length..]));
      infos := infos + [ExtraInfo(typ, data[pos..pos + length])];
      pos := pos + length;
    }
    NothingLeft(data[pos..]);
    NothingAfter(infos, Ok([]));
    return Ok(infos);
  }

  lemma {:induction false} NothingLeft(data: seq<byte>)
    requires |data| < EntryHeader
    ensures Entries(data) == Ok([])
  {
  }

  lemma {:induction false} NothingAfter(infos: seq<ExtraInfo>, r: Result<seq<ExtraInfo>>)
    ensures r == Ok([]) ==> After(infos, r) == Ok(infos)
    ensures r.Err? ==> After(infos, r) == r
  {
    assert infos + [] == infos;
  }

  lemma {:induction false} EntryAt(data: seq<byte>, pos: nat)
    requires pos + EntryHeader <= |data|
    ensures
      var length := Value(data[pos + 2..pos + 6]);
      Entries(data[pos..]) ==
      if |data[pos + EntryHeader..]| < length then Err(UnexpectedEOF)
      else After([ExtraInfo(Value(data[pos..pos + 2]), data[pos + EntryHeader..pos + EntryHeader + length])],
                 Entries(data[pos + EntryHeader + length..]))
  {
    hide Value, After;
    var d, length := data[pos..], Value(data[pos + 2..pos + 6]);
    assert d[0..2] == data[pos..pos + 2] && d[2..6] == data[pos + 2..pos + 6];
    if EntryHeader + length <= |d| {
      assert d[EntryHeader + length..] == data[pos + EntryHeader + length..];
      assert d[EntryHeader..EntryHeader + length] == data[pos + EntryHeader..pos + EntryHeader + length];
    }
  }

  /** The widths of the type and length fields. */
  predicate Encodable(infos: seq<ExtraInfo>) {
    forall i :: 0 <= i < |infos| ==> infos[i].typ < Radix(2) && |infos[i].data| < Radix(4)
  }

  lemma {:induction false} EntriesCons(typ: seq<byte>, length: seq<byte>, data: seq<byte>, more: seq<byte>)
    requires |typ| == 2 && |length| == 4 && Value(length) == |data|
    ensures Entries(typ + length + data + more) == After([ExtraInfo(Value(typ), data)], Entries(more))
  {
    hide Value, After;
    var s := typ + length + data + more;
    assert s[0..2] == typ && s[2..6] == length;
    assert s[EntryHeader..EntryHeader + |data|] == data && s[EntryHeader + |data|..] == more;
  }

  lemma {:induction false} ExactInteger(n: nat, width: nat)
    requires n < Radix(width)
    ensures Value(LittleEndian(n, width)) == n
  {
    hide Radix, Value, LittleEndian;
    ValueOfLittleEndian(n, width);
  }

  lemma {:induction false} EntriesStep(infos: seq<ExtraInfo>, tail: seq<byte>)
    requires infos != [] && infos[0].typ < Radix(2) && |infos[0].data| < Radix(4)
    ensures Entries(ExtraBytes(infos) + tail) == After([infos[0]], Entries(ExtraBytes(infos[1..]) + tail))
  {
    hide LittleEndian, Radix, Entries, Value, After, ExtraBytes;
    var typ, data := infos[0].typ, infos[0].data;
    ExactInteger(typ, 2);
    ExactInteger(|data|, 4);
    Regroup(infos, tail);
    EntriesCons(LittleEndian(typ, 2), LittleEndian(|data|, 4), data, ExtraBytes(infos[1..]) + tail);
  }

  lemma {:induction false} EntriesOfBytes(infos: seq<ExtraInfo>, tail: seq<byte>)
    requires Encodable(infos) && |tail| < EntryHeader
    ensures Entries(ExtraBytes(infos) + tail) == Ok(infos)
  {
    hide Radix, Entries, ExtraBytes;
    if infos != [] {
      EntriesStep(infos, tail);
      EntriesOfBytes(infos[1..], tail);
      assert [infos[0]] + infos[1..] == infos;
    } else {
      NoBytes(tail);
      NothingLeft(tail);
    }
  }

  lemma {:induction false} Regroup(infos: seq<ExtraInfo>, tail: seq<byte>)
    requires infos != []
    ensures ExtraBytes(infos) + tail == LittleEndian(infos[0].typ, 2) + LittleEndian(|infos[0].data|, 4) + infos[0].data
                                        + (ExtraBytes(infos[1..]) + tail)
  {
    hide LittleEndian;
  }

  /** The bytes that reading leaves over. */
  function Leftover(data: seq<byte>): (tail: seq<byte>)
    decreases |data|
  {
    if |data| < EntryHeader then data
    else
      var end := EntryHeader + Value(data[2..6]);
      if |data| < end then data else Leftover(data[end..])
  }

  lemma {:induction false} BytesOfEntries(data: seq<byte>)
    requires Entries(data).Ok?
    ensures Encodable(Entries(data).value) && |Leftover(data)| < EntryHeader
    ensures data == ExtraBytes(Entries(data).value) + Leftover(data)
  {
    hide Value, LittleEndian, Radix, ExtraBytes;
    if |data| >= EntryHeader {
      var end := EntryHeader + Value(data[2..6]);
      BytesOfEntries(data[end..]);
      BytesCons(data, end, Entries(data[end..]).value);
      assert data == data[..end] + data[end..];
    } else {
      NoBytes(data);
    }
  }

  lemma {:induction false} NoBytes(data: seq<byte>)
    ensures ExtraBytes([]) + data == data
  {
  }

  lemma {:induction false} BytesCons(data: seq<byte>, end: nat, more: seq<ExtraInfo>)
    requires EntryHeader <= end <= |data| && end == EntryHeader + Value(data[2..6]) && Encodable(more)
    ensures
      var infos := [ExtraInfo(Value(data[0..2]), data[EntryHeader..end])] + more;
      && Encodable(infos)
      && data[..end] + ExtraBytes(more) == ExtraBytes(infos)
  {
    hide Value, LittleEndian, Radix;
    var infos := [ExtraInfo(Value(data[0..2]), data[EntryHeader..end])] + more;
    LittleEndianOfValue(data[0..2]);
    LittleEndianOfValue(data[2..6]);
    assert |data[0..2]| == 2 && |data[2..6]| == 4;
    assert data[..end] == data[0..2] + data[2..6] + data[EntryHeader..end];
    assert infos[1..] == more;
  }

  /** A block reads as a list of entries exactly when it is their encoding, followed by fewer than six ignored bytes. */
  lemma {:induction false} EntriesExact(data: seq<byte>, infos: seq<ExtraInfo>)
    ensures Entries(data) == Ok(infos)
            <==> Encodable(infos) && exists tail :: |tail| < EntryHeader && data == ExtraBytes(infos) + tail
  {
    hide ExtraBytes, Encodable, Entries;
    if Entries(data) == Ok(infos) {
      BytesOfEntries(data);
    }
    if Encodable(infos) && exists tail :: |tail| < EntryHeader && data == ExtraBytes(infos) + tail {
      var tail :| |tail| < EntryHeader && data == ExtraBytes(infos) + tail;
      EntriesOfBytes(infos, tail);
    }
  }
}
