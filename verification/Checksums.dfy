/**
 The two checksums of an OB 2.0 frame: CRC-16/ARC over the header and CRC-32C (zero initial value, no final
 exclusive-or) over the payload. A register or table entry is the list of its bits, low-order bit first, so that one
 development covers both widths: shifting right by k drops the first k bits and appends k false bits.
 */
module Checksums {
  import opened Bytes
  import opened BitStrings

  /** The reflected polynomial of a CRC. Its top bit is set, and a register holds at least one byte. */
  type Poly = p: Bits | |p| >= 8 && p[|p| - 1] witness seq(8, i => true)

  // ---- the algebra of registers ----

  function Zeros(n: nat): (r: Bits)
    ensures |r| == n
  {
    seq(n, i => false)
  }

  function Xor(a: Bits, b: Bits): (r: Bits)
    requires |a| == |b|
    ensures |r| == |a|
  {
    seq(|a|, i requires 0 <= i < |a| => a[i] != b[i])
  }

  function Pad(r: Bits, n: nat): (p: Bits)
    requires |r| <= n
    ensures |p| == n
  {
    r + Zeros(n - |r|)
  }

  function ShiftRight(r: Bits, k: nat): (s: Bits)
    requires k <= |r|
    ensures |s| == |r|
  {
    r[k..] + Zeros(k)
  }

  /** One step of the division register on a zero message bit: (crc >> 1) ^ poly when the low bit is set. */
  function Step(r: Bits, poly: Poly): (s: Bits)
    requires |r| == |poly|
    ensures |s| == |r|
  {
    if r[0] then Xor(ShiftRight(r, 1), poly) else ShiftRight(r, 1)
  }

  function Steps(r: Bits, k: nat, poly: Poly): (s: Bits)
    requires |r| == |poly|
    ensures |s| == |r|
  {
    if k == 0 then r else Step(Steps(r, k - 1, poly), poly)
  }

  /** The bit-by-bit division register: each message bit is added to the low end before the register steps. */
  function Divide(r: Bits, message: Bits, poly: Poly): (s: Bits)
    requires |r| == |poly|
    ensures |s| == |r|
    decreases |message|
  {
    if message == [] then r
    else Divide(Step(Xor(r, Pad(message[..1], |r|)), poly), message[1..], poly)
  }

  /** The checksum of a message: the remainder left in a register that starts at zero. */
  function Remainder(data: seq<byte>, poly: Poly): (s: Bits)
    ensures |s| == |poly|
  {
    Divide(Zeros(|poly|), MessageBits(data), poly)
  }

  lemma {:induction false} StepLinear(a: Bits, b: Bits, poly: Poly)
    requires |a| == |b| == |poly|
    ensures Step(Xor(a, b), poly) == Xor(Step(a, poly), Step(b, poly))
  {
  }

  lemma {:induction false} StepInjective(a: Bits, b: Bits, poly: Poly)
    requires |a| == |b| == |poly|
    requires Step(a, poly) == Step(b, poly)
    ensures a == b
  {
    var n := |a|;
    assert Step(a, poly)[n - 1] == a[0] && Step(b, poly)[n - 1] == b[0];
    forall i | 0 < i < n
      ensures a[i] == b[i]
    {
      assert Step(a, poly)[i - 1] == Step(b, poly)[i - 1];
    }
  }

  lemma {:induction false} StepsLinear(a: Bits, b: Bits, k: nat, poly: Poly)
    requires |a| == |b| == |poly|
    ensures Steps(Xor(a, b), k, poly) == Xor(Steps(a, k, poly), Steps(b, k, poly))
  {
    if k > 0 {
      StepsLinear(a, b, k - 1, poly);
      StepLinear(Steps(a, k - 1, poly), Steps(b, k - 1, poly), poly);
    }
  }

  lemma {:induction false} StepsAdd(r: Bits, j: nat, k: nat, poly: Poly)
    requires |r| == |poly|
    ensures Steps(Steps(r, j, poly), k, poly) == Steps(r, j + k, poly)
  {
    if k > 0 {
      StepsAdd(r, j, k - 1, poly);
    }
  }

  lemma {:induction false} StepsInjective(a: Bits, b: Bits, k: nat, poly: Poly)
    requires |a| == |b| == |poly|
    requires Steps(a, k, poly) == Steps(b, k, poly)
    ensures a == b
  {
    if k > 0 {
      StepInjective(Steps(a, k - 1, poly), Steps(b, k - 1, poly), poly);
      StepsInjective(a, b, k - 1, poly);
    }
  }

  lemma {:induction false} StepsOfHigh(r: Bits, k: nat, poly: Poly)
    requires k <= |r| == |poly|
    requires forall i :: 0 <= i < k ==> !r[i]
    ensures Steps(r, k, poly) == ShiftRight(r, k)
  {
    if k > 0 {
      StepsOfHigh(r, k - 1, poly);
      assert !ShiftRight(r, k - 1)[0];
      assert ShiftRight(ShiftRight(r, k - 1), 1) == ShiftRight(r, k);
    }
  }

  // ---- the division register as a linear map ----

  /** Stepping first and adding the remaining bits afterwards is adding all the bits and then stepping. */
  lemma AddLater(r: Bits, message: Bits, poly: Poly)
    requires 0 < |message| <= |r| == |poly|
    ensures Xor(Step(Xor(r, Pad(message[..1], |r|)), poly), Pad(message[1..], |r|)) ==
            Step(Xor(r, Pad(message, |r|)), poly)
  {
    var n := |r|;
    var first := Xor(r, Pad(message[..1], n));
    var later := [false] + Pad(message[1..], n - 1);
    assert Xor(first, later) == Xor(r, Pad(message, n));
    assert Step(later, poly) == Pad(message[1..], n);
    hide Step;
    StepLinear(first, later, poly);
  }

  /** A message no longer than the register may be added to the register up front. */
  lemma {:induction false} DivideShort(r: Bits, message: Bits, poly: Poly)
    requires |message| <= |r| == |poly|
    ensures Divide(r, message, poly) == Steps(Xor(r, Pad(message, |r|)), |message|, poly)
    decreases |message|
  {
    var n := |r|;
    if message == [] {
      assert Xor(r, Pad(message, n)) == r;
    } else {
      var head, tail := message[..1], message[1..];
      var first := Xor(r, Pad(head, n));
      DivideShort(Step(first, poly), tail, poly);
      AddLater(r, message, poly);
      StepsAdd(Xor(r, Pad(message, n)), 1, |tail|, poly);
      assert Steps(Xor(r, Pad(message, n)), 0, poly) == Xor(r, Pad(message, n));
    }
  }

  lemma {:induction false} DivideConcat(r: Bits, a: Bits, b: Bits, poly: Poly)
    requires |r| == |poly|
    ensures Divide(r, a + b, poly) == Divide(Divide(r, a, poly), b, poly)
    decreases |a|
  {
    if a == [] {
      assert a + b == b;
    } else {
      assert (a + b)[..1] == a[..1] && (a + b)[1..] == a[1..] + b;
      DivideConcat(Step(Xor(r, Pad(a[..1], |r|)), poly), a[1..], b, poly);
    }
  }

  lemma {:induction false} DivideLinear(r: Bits, s: Bits, a: Bits, b: Bits, poly: Poly)
    requires |r| == |s| == |poly| && |a| == |b|
    ensures Divide(Xor(r, s), Xor(a, b), poly) == Xor(Divide(r, a, poly), Divide(s, b, poly))
    decreases |a|
  {
    if a != [] {
      var n := |r|;
      var r', s' := Xor(r, Pad(a[..1], n)), Xor(s, Pad(b[..1], n));
      assert Xor(a, b)[..1] == Xor(a[..1], b[..1]) && Xor(a, b)[1..] == Xor(a[1..], b[1..]);
      assert Xor(Xor(r, s), Pad(Xor(a, b)[..1], n)) == Xor(r', s');
      StepLinear(r', s', poly);
      DivideLinear(Step(r', poly), Step(s', poly), a[1..], b[1..], poly);
    }
  }

  lemma {:induction false} DivideInjective(r: Bits, s: Bits, message: Bits, poly: Poly)
    requires |r| == |s| == |poly|
    requires Divide(r, message, poly) == Divide(s, message, poly)
    ensures r == s
    decreases |message|
  {
    if message != [] {
      var bit := Pad(message[..1], |r|);
      DivideInjective(Step(Xor(r, bit), poly), Step(Xor(s, bit), poly), message[1..], poly);
      StepInjective(Xor(r, bit), Xor(s, bit), poly);
      assert Xor(Xor(r, bit), bit) == r && Xor(Xor(s, bit), bit) == s;
    }
  }

  lemma {:induction false} DivideShortInjective(r: Bits, a: Bits, b: Bits, poly: Poly)
    requires |r| == |poly| && |a| == |b| <= |poly|
    requires Divide(r, a, poly) == Divide(r, b, poly)
    ensures a == b
  {
    DivideShort(r, a, poly);
    DivideShort(r, b, poly);
    var pa, pb := Pad(a, |r|), Pad(b, |r|);
    StepsInjective(Xor(r, pa), Xor(r, pb), |a|, poly);
    assert Xor(r, Xor(r, pa)) == pa && Xor(r, Xor(r, pb)) == pb;
    assert pa[..|a|] == a && pb[..|b|] == b;
  }

  lemma {:induction false} DivideThree(r: Bits, a: Bits, b: Bits, c: Bits, poly: Poly)
    requires |r| == |poly|
    ensures Divide(r, a + b + c, poly) == Divide(Divide(Divide(r, a, poly), b, poly), c, poly)
  {
    DivideConcat(r, a, b, poly);
    DivideConcat(r, a + b, c, poly);
  }

  /** Messages that differ only inside one window of at most |poly| bits have different remainders. */
  lemma {:induction false} BurstChangesRemainder(r: Bits, before: Bits, a: Bits, b: Bits, after: Bits, poly: Poly)
    requires |r| == |poly| && |a| == |b| <= |poly| && a != b
    ensures Divide(r, before + a + after, poly) != Divide(r, before + b + after, poly)
  {
    DivideThree(r, before, a, after, poly);
    DivideThree(r, before, b, after, poly);
    var s := Divide(r, before, poly);
    if Divide(r, before + a + after, poly) == Divide(r, before + b + after, poly) {
      DivideInjective(Divide(s, a, poly), Divide(s, b, poly), after, poly);
      DivideShortInjective(s, a, b, poly);
    }
  }

  // ---- messages of bytes ----

  /** A change confined to as many bytes as the register has (two for CRC-16, four for CRC-32C) is always seen. */
  lemma {:induction false} BurstDetected(before: seq<byte>, a: seq<byte>, b: seq<byte>, after: seq<byte>, poly: Poly)
    requires |a| == |b| && 8 * |a| <= |poly| && a != b
    ensures Remainder(before + a + after, poly) != Remainder(before + b + after, poly)
  {
    MessageBitsConcat(before, a);
    MessageBitsConcat(before, b);
    MessageBitsConcat(before + a, after);
    MessageBitsConcat(before + b, after);
    if MessageBits(a) == MessageBits(b) {
      MessageBitsInjective(a, b);
    }
    BurstChangesRemainder(Zeros(|poly|), MessageBits(before), MessageBits(a), MessageBits(b), MessageBits(after), poly);
  }

  // ---- the table-driven form ----

  lemma {:induction false} StepsOfZero(k: nat, poly: Poly)
    ensures Steps(Zeros(|poly|), k, poly) == Zeros(|poly|)
  {
    if k > 0 {
      StepsOfZero(k - 1, poly);
      assert ShiftRight(Zeros(|poly|), 1) == Zeros(|poly|);
    }
  }

  /** A message followed by its own checksum has the checksum zero. */
  lemma {:induction false} OwnChecksum(data: seq<byte>, poly: Poly)
    requires |poly| % 8 == 0
    ensures Remainder(data + Pack(Remainder(data, poly)), poly) == Zeros(|poly|)
  {
    hide Divide, Steps, MessageBits, Pack;
    var r := Remainder(data, poly);
    MessageBitsConcat(data, Pack(r));
    MessageBitsOfPack(r);
    DivideConcat(Zeros(|poly|), MessageBits(data), r, poly);
    DivideShort(r, r, poly);
    assert Xor(r, Pad(r, |r|)) == Zeros(|poly|);
    StepsOfZero(|r|, poly);
  }

  lemma {:induction false} BitsOfWider(n: nat, narrow: nat, wide: nat)
    requires narrow <= wide && n < Two(narrow)
    ensures BitsOf(n, wide) == Pad(BitsOf(n, narrow), wide)
  {
    if wide > 0 {
      if narrow > 0 {
        BitsOfWider(n / 2, narrow - 1, wide - 1);
      } else {
        BitsOfWider(n / 2, 0, wide - 1);
      }
    }
  }

  function Entry(i: nat, poly: Poly): (r: Bits)
    ensures |r| == |poly|
  {
    Steps(BitsOf(i, |poly|), 8, poly)
  }

  ghost predicate IsTable(table: seq<Bits>, poly: Poly) {
    |table| == 256 && forall i :: 0 <= i < 256 ==> table[i] == Entry(i, poly)
  }

  /** The register value (crc >> 8) ^ table[byte(crc) ^ b] is eight steps of the division register. */
  lemma {:induction false} TableStep(r: Bits, b: byte, poly: Poly)
    requires |r| == |poly|
    ensures var index := IntOf(Xor(r[..8], ByteBits(b)));
            index < 256 && Divide(r, ByteBits(b), poly) == Xor(ShiftRight(r, 8), Entry(index, poly))
  {
    hide Steps, Divide, BitsOf, IntOf, Step, Two;
    var n := |r|;
    var low := Xor(r[..8], ByteBits(b));
    BitsOfIntOf(low);
    TwoTo8();
    DivideShort(r, ByteBits(b), poly);
    var high := Zeros(8) + r[8..];
    assert Xor(r, Pad(ByteBits(b), n)) == Xor(high, Pad(low, n));
    StepsLinear(high, Pad(low, n), 8, poly);
    StepsOfHigh(high, 8, poly);
    assert ShiftRight(high, 8) == ShiftRight(r, 8);
    BitsOfWider(IntOf(low), 8, n);
  }

  method BuildTable(poly: Poly) returns (table: array<Bits>)
    ensures fresh(table) && IsTable(table[..], poly)
  {
    table := new Bits[256](i => []);
    for i := 0 to 256
      invariant forall k :: 0 <= k < i ==> table[k] == Entry(k, poly)
    {
      var crc := BitsOf(i, |poly|);
      for j := 0 to 8
        invariant crc == Steps(BitsOf(i, |poly|), j, poly)
      {
        if crc[0] {
          crc := Xor(ShiftRight(crc, 1), poly);
        } else {
          crc := ShiftRight(crc, 1);
        }
      }
      table[i] := crc;
    }
  }

  lemma {:induction false} RemainderStep(data: seq<byte>, b: byte, poly: Poly)
    ensures Remainder(data + [b], poly) == Divide(Remainder(data, poly), ByteBits(b), poly)
  {
    hide Divide, ByteBits;
    MessageBitsConcat(data, [b]);
    DivideConcat(Zeros(|poly|), MessageBits(data), ByteBits(b), poly);
    assert MessageBits([b]) == ByteBits(b);
  }

  /** The checksum as the driver computes it: a fold over the bytes, one table lookup each. */
  method Checksum(table: array<Bits>, data: seq<byte>, poly: Poly) returns (crc: Bits)
    requires IsTable(table[..], poly)
    ensures crc == Remainder(data, poly)
  {
    hide Divide, Entry, ByteBits, IntOf, Remainder;
    crc := Zeros(|poly|);
    RemainderOfNothing(poly);
    for i := 0 to |data|
      invariant |crc| == |poly|
      invariant crc == Remainder(data[..i], poly)
    {
      TableStep(crc, data[i], poly);
      RemainderStep(data[..i], data[i], poly);
      assert data[..i + 1] == data[..i] + [data[i]];
      var index := IntOf(Xor(crc[..8], ByteBits(data[i])));
      assert table[..][index] == Entry(index, poly);
      crc := Xor(ShiftRight(crc, 8), table[index]);
    }
    assert data[..|data|] == data;
  }

  lemma {:induction false} RemainderOfNothing(poly: Poly)
    ensures Remainder([], poly) == Zeros(|poly|)
  {
  }

  // ---- the two polynomials ----

  lemma {:induction false} TopBit(n: nat, width: nat)
    requires width > 0 && Two(width - 1) <= n < Two(width)
    ensures BitsOf(n, width)[width - 1]
  {
    if width > 1 {
      TopBit(n / 2, width - 1);
    }
  }

  lemma {:induction false} PolyFromBytes(low: seq<byte>, top: byte)
    requires top >= 0x80
    ensures MessageBits(low + [top])[8 * |low| + 7]
  {
    MessageBitsConcat(low, [top]);
    TwoTo8();
    TopBit(top, 8);
    assert MessageBits([top]) == ByteBits(top);
  }

  /** The polynomial with these bytes, low-order first. */
  function PolyOf(low: seq<byte>, top: byte): (p: Poly)
    requires top >= 0x80
    ensures |p| == 8 * |low| + 8
  {
    PolyFromBytes(low, top);
    MessageBits(low + [top])
  }

  /** 0xA001 */
  const Crc16Poly: Poly := PolyOf([0x01], 0xA0)

  /** 0x82F63B78 */
  const Crc32Poly: Poly := PolyOf([0x78, 0x3B, 0xF6], 0x82)

  /** The byte 0x80 leaves the polynomial itself. */
  lemma {:induction false} RemainderOfTop(poly: Poly)
    ensures Remainder([0x80], poly) == poly
  {
    hide Divide, Steps;
    TopBits();
    var n, m := |poly|, [false, false, false, false, false, false, false, true];
    DivideShort(Zeros(n), m, poly);
    var r := Pad(m, n);
    assert Xor(Zeros(n), r) == r;
    StepsOfHigh(r, 7, poly);
    StepsOne(r, 7, poly);
    assert ShiftRight(r, 7) == [true] + Zeros(n - 1);
    assert ShiftRight([true] + Zeros(n - 1), 1) == Zeros(n) && Xor(Zeros(n), poly) == poly;
  }

  lemma {:induction false} StepsOne(r: Bits, k: nat, poly: Poly)
    requires |r| == |poly|
    ensures Steps(r, k + 1, poly) == Step(Steps(r, k, poly), poly)
  {
  }

  lemma {:induction false} TopBits()
    ensures MessageBits([0x80]) == [false, false, false, false, false, false, false, true]
  {
    assert MessageBits([0x80]) == ByteBits(0x80) + MessageBits([]);
    assert BitsOf(0x80, 8) == [false] + BitsOf(0x40, 7) && BitsOf(0x40, 7) == [false] + BitsOf(0x20, 6);
    assert BitsOf(0x20, 6) == [false] + BitsOf(0x10, 5) && BitsOf(0x10, 5) == [false] + BitsOf(8, 4);
    assert BitsOf(8, 4) == [false] + BitsOf(4, 3) && BitsOf(4, 3) == [false] + BitsOf(2, 2);
    assert BitsOf(2, 2) == [false] + BitsOf(1, 1) && BitsOf(1, 1) == [true];
  }

  lemma {:induction false} PackPoly(low: seq<byte>, top: byte)
    requires top >= 0x80
    ensures |PolyOf(low, top)| % 8 == 0 && Pack(PolyOf(low, top)) == low + [top]
  {
    hide MessageBits, Pack;
    MessageBitsOfPack(PolyOf(low, top));
    MessageBitsInjective(Pack(PolyOf(low, top)), low + [top]);
  }
}
