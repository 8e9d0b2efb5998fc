/** Length-encoded integers and strings, in both directions. */
module Lenenc {
  import opened Bytes

  /** `consumed` bytes were read; a NULL marker reads as 0. */
  datatype IntRead = Int(value: nat, consumed: nat, isNull: bool) | BadInt(error: Error)

  datatype StringRead = Str(value: seq<byte>, consumed: nat) | Null | BadStr(error: Error)

  function PutInt(n: nat): (s: seq<byte>)
  {
    if n < 251 then [n]
    else if n < 0x1_0000 then [0xfc] + LittleEndian(n, 2)
    else if n < 0x100_0000 then [0xfd] + LittleEndian(n, 3)
    else [0xfe] + LittleEndian(n, 8)
  }

  function PutString(s: seq<byte>): (r: seq<byte>)
  {
    PutInt(|s|) + s
  }

  function ReadInt(src: seq<byte>): (r: IntRead)
    ensures r.Int? ==> 1 <= r.consumed <= |src|
  {
    if src == [] then BadInt(UnexpectedEOF)
    else if src[0] == 0xfb then Int(0, 1, true)
    else if src[0] == 0xfc then if |src| < 3 then BadInt(UnexpectedEOF) else Int(Value(src[1..3]), 3, false)
    else if src[0] == 0xfd then if |src| < 4 then BadInt(UnexpectedEOF) else Int(Value(src[1..4]), 4, false)
    else if src[0] == 0xfe then if |src| < 9 then BadInt(UnexpectedEOF) else Int(Value(src[1..9]), 9, false)
    else if src[0] == 0xff then BadInt(Malformed)
    else Int(src[0], 1, false)
  }

  function ReadString(src: seq<byte>): (r: StringRead)
    ensures r.Str? ==> 1 <= r.consumed <= |src| && |r.value| < r.consumed
  {
    match ReadInt(src)
    case BadInt(e) => BadStr(e)
    case Int(n, used, isNull) =>
      if isNull then Null
      else if |src| - used < n then BadStr(UnexpectedEOF)
      else Str(src[used..used + n], used + n)
  }

  /** The bytes a reader skips when it ignores the NULL flag and the value. */
  function Skip(r: StringRead): (n: nat)
    requires !r.BadStr?
  {
    if r.Null? then 1 else r.consumed
  }

  /** Reading undoes writing for every 64-bit integer, whatever follows: the encoding is prefix-free. */
  lemma {:induction false} IntRoundTrip(n: nat, rest: seq<byte>)
    requires n < 0x1_0000_0000_0000_0000
    ensures ReadInt(PutInt(n) + rest) == Int(n, |PutInt(n)|, false)
  {
    hide LittleEndian, Value, Radix;
    RadixValues();
    var s := PutInt(n) + rest;
    var width := if n < 0x1_0000 then 2 else if n < 0x100_0000 then 3 else 8;
    if n >= 251 {
      assert s[1..1 + width] == LittleEndian(n, width);
      ValueOfLittleEndian(n, width);
    }
  }

  lemma {:induction false} StringRoundTrip(t: seq<byte>, rest: seq<byte>)
    requires |t| < 0x1_0000_0000_0000_0000
    ensures ReadString(PutString(t) + rest) == Str(t, |PutString(t)|)
  {
    hide PutInt, ReadInt;
    var head := PutInt(|t|);
    IntRoundTrip(|t|, t + rest);
    var s := PutString(t) + rest;
    assert s == head + (t + rest);
    assert s[|head|..|head| + |t|] == t;
  }

  /** The first byte tells the range of the integer, and never looks like NULL or an error. */
  lemma {:induction false} FirstByte(n: nat)
    ensures var s := PutInt(n);
            && |s| >= 1 && s[0] != 0xfb && s[0] != 0xff
            && (s[0] == 0xfe <==> n >= 0x100_0000)
            && (n < 251 ==> s == [n])
            && (s[0] == 0 <==> n == 0)
  {
  }

  /** No encoding is a proper prefix of another one, and different integers are encoded differently. */
  lemma {:induction false} PrefixFree(m: nat, n: nat, s: seq<byte>, t: seq<byte>)
    requires m < 0x1_0000_0000_0000_0000 && n < 0x1_0000_0000_0000_0000
    requires PutInt(m) + s == PutInt(n) + t
    ensures m == n && s == t
  {
    hide PutInt, ReadInt;
    IntRoundTrip(m, s);
    IntRoundTrip(n, t);
    assert (PutInt(m) + s)[|PutInt(m)|..] == s && (PutInt(n) + t)[|PutInt(n)|..] == t;
  }

  // ---- exactly what is accepted ----

  /** The integer with these four bytes, the lowest first. */
  function Four(a: int, b: int, c: int, d: int): int {
    a + 0x100 * b + 0x1_0000 * c + 0x100_0000 * d
  }

  /** An integer in one of the four forms; a sender need not choose the shortest. */
  predicate SpellsInt(s: seq<byte>, n: nat) {
    || (|s| == 1 && s[0] < 0xfb && n == s[0])
    || (|s| == 3 && s[0] == 0xfc && n == Four(s[1], s[2], 0, 0))
    || (|s| == 4 && s[0] == 0xfd && n == Four(s[1], s[2], s[3], 0))
    || (|s| == 9 && s[0] == 0xfe && n == Four(s[1], s[2], s[3], s[4]) + 0x1_0000_0000 * Four(s[5], s[6], s[7], s[8]))
  }

  /** An integer is read exactly when one of the forms stands in front; NULL reads as 0. */
  lemma {:induction false} IntExact(s: seq<byte>, used: nat, n: nat)
    requires used <= |s|
    ensures ReadInt(s) == Int(n, used, false) <==> SpellsInt(s[..used], n)
    ensures ReadInt(s) == Int(n, used, true) <==> s[..used] == [0xfb] && n == 0
  {
    hide Value;
    if |s| > 0 {
      if s[0] == 0xfc && |s| >= 3 {
        ValueDigits(s[1..3]);
      } else if s[0] == 0xfd && |s| >= 4 {
        ValueDigits(s[1..4]);
      } else if s[0] == 0xfe && |s| >= 9 {
        ValueDigits(s[1..9]);
      }
    }
  }

  lemma {:induction false} ValueDigits(s: seq<byte>)
    ensures |s| == 2 ==> Value(s) == Four(s[0], s[1], 0, 0)
    ensures |s| == 3 ==> Value(s) == Four(s[0], s[1], s[2], 0)
    ensures |s| == 4 ==> Value(s) == Four(s[0], s[1], s[2], s[3])
    ensures |s| == 8 ==> Value(s) == Four(s[0], s[1], s[2], s[3]) + 0x1_0000_0000 * Four(s[4], s[5], s[6], s[7])
  {
    if |s| == 2 {
      ValueStep(s);
      ValueStep(s[1..]);
      assert s[1..][1..] == [];
    } else if |s| == 3 || |s| == 4 {
      ValueStep(s);
      ValueDigits(s[1..]);
    } else if |s| == 8 {
      ValueDigits(s[4..]);
      FourSteps(s);
    }
  }

  lemma {:induction false} ValueStep(s: seq<byte>)
    requires s != []
    ensures Value(s) == s[0] as int + 256 * Value(s[1..])
  {
  }

  lemma {:induction false} FourSteps(s: seq<byte>)
    requires |s| >= 4
    ensures Value(s) == Four(s[0], s[1], s[2], s[3]) + 0x1_0000_0000 * Value(s[4..])
  {
    hide Value;
    ValueStep(s);
    ValueStep(s[1..]);
    ValueStep(s[2..]);
    ValueStep(s[3..]);
    assert s[1..][1..] == s[2..] && s[2..][1..] == s[3..] && s[3..][1..] == s[4..];
  }

  /** A counted string: its length in one of the forms, then its bytes. */
  predicate SpellsString(s: seq<byte>, t: seq<byte>) {
    |t| < |s| && s[|s| - |t|..] == t && SpellsInt(s[..|s| - |t|], |t|)
  }

  /** A string is read exactly when it stands in front with its length. */
  lemma {:induction false} StringExact(s: seq<byte>, used: nat, t: seq<byte>)
    requires used <= |s|
    ensures ReadString(s) == Str(t, used) <==> SpellsString(s[..used], t)
    ensures ReadString(s) == Null <==> |s| > 0 && s[0] == 0xfb
  {
    hide ReadInt, SpellsInt;
    NullFirst(s);
    match ReadInt(s)
    case BadInt(_) =>
      if |t| < used {
        IntExact(s, used - |t|, |t|);
        assert s[..used][..used - |t|] == s[..used - |t|];
      }
    case Int(n, k, isNull) =>
      IntExact(s, k, n);
      if |t| < used {
        IntExact(s, used - |t|, |t|);
        assert s[..used][..used - |t|] == s[..used - |t|];
        assert s[..used][used - |t|..] == s[used - |t|..used];
      }
  }

  lemma {:induction false} NullFirst(s: seq<byte>)
    ensures ReadInt(s).Int? && ReadInt(s).isNull <==> |s| > 0 && s[0] == 0xfb
  {
  }
}
