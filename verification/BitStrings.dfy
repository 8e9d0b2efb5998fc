/** Bytes as strings of bits, low-order bit first: registers, messages and NULL bitmaps. */
module BitStrings {
  import opened Bytes

  type Bits = seq<bool>

  function BitsOf(n: nat, width: nat): (r: Bits)
    ensures |r| == width
  {
    if width == 0 then [] else [n % 2 == 1] + BitsOf(n / 2, width - 1)
  }

  function IntOf(r: Bits): (n: nat)
  {
    if r == [] then 0 else (if r[0] then 1 else 0) + 2 * IntOf(r[1..])
  }

  function Two(k: nat): (n: nat)
    ensures n > 0
  {
    if k == 0 then 1 else 2 * Two(k - 1)
  }

  lemma {:induction false} BitsOfIntOf(r: Bits)
    ensures IntOf(r) < Two(|r|) && BitsOf(IntOf(r), |r|) == r
  {
    if r != [] {
      BitsOfIntOf(r[1..]);
    }
  }

  lemma {:induction false} IntOfBitsOf(n: nat, width: nat)
    requires n < Two(width)
    ensures IntOf(BitsOf(n, width)) == n
  {
    if width > 0 {
      IntOfBitsOf(n / 2, width - 1);
    }
  }

  function ByteBits(b: byte): (r: Bits)
    ensures |r| == 8
  {
    BitsOf(b, 8)
  }

  lemma {:induction false} TwoTo8()
    ensures Two(8) == 256
  {
    assert Two(4) == 16 && Two(6) == 4 * Two(4);
  }

  /** The bits of a message in the order in which they enter the register. */
  function MessageBits(data: seq<byte>): (m: Bits)
    ensures |m| == 8 * |data|
  {
    if data == [] then [] else ByteBits(data[0]) + MessageBits(data[1..])
  }

  lemma {:induction false} MessageBitsConcat(a: seq<byte>, b: seq<byte>)
    ensures MessageBits(a + b) == MessageBits(a) + MessageBits(b)
  {
    if a == [] {
      assert a + b == b;
    } else {
      assert (a + b)[0] == a[0] && (a + b)[1..] == a[1..] + b;
      MessageBitsConcat(a[1..], b);
    }
  }

  lemma {:induction false} MessageBitsInjective(a: seq<byte>, b: seq<byte>)
    requires |a| == |b| && MessageBits(a) == MessageBits(b)
    ensures a == b
  {
    if a != [] {
      var ma, mb := MessageBits(a), MessageBits(b);
      assert ma[..8] == ByteBits(a[0]) && ma[8..] == MessageBits(a[1..]);
      assert mb[..8] == ByteBits(b[0]) && mb[8..] == MessageBits(b[1..]);
      TwoTo8();
      IntOfBitsOf(a[0], 8);
      IntOfBitsOf(b[0], 8);
      MessageBitsInjective(a[1..], b[1..]);
    }
  }

  function Pack(r: Bits): (s: seq<byte>)
    requires |r| % 8 == 0
    ensures 8 * |s| == |r|
  {
    if r == [] then []
    else
      BitsOfIntOf(r[..8]); TwoTo8();
      [IntOf(r[..8])] + Pack(r[8..])
  }

  lemma {:induction false} MessageBitsOfPack(r: Bits)
    requires |r| % 8 == 0
    ensures MessageBits(Pack(r)) == r
  {
    if r != [] {
      BitsOfIntOf(r[..8]);
      MessageBitsOfPack(r[8..]);
      assert Pack(r)[0] == IntOf(r[..8]) && Pack(r)[1..] == Pack(r[8..]);
    }
  }

  lemma {:induction false} PackInjective(a: Bits, b: Bits)
    requires |a| == |b| && |a| % 8 == 0 && Pack(a) == Pack(b)
    ensures a == b
  {
    MessageBitsOfPack(a);
    MessageBitsOfPack(b);
  }

  // ---- single bits ----

  /** b & (1 << k) != 0 */
  predicate TestBit(b: nat, k: nat) {
    (b / Two(k)) % 2 == 1
  }

  /** b | 1 << k */
  function SetBit(b: nat, k: nat): (r: nat) {
    if TestBit(b, k) then b else b + Two(k)
  }

  lemma {:induction false} BitAt(n: nat, width: nat, k: nat)
    requires k < width
    ensures BitsOf(n, width)[k] <==> TestBit(n, k)
  {
    if k > 0 {
      BitAt(n / 2, width - 1, k - 1);
      DivideTwice(n, Two(k - 1));
    }
  }

  /** Bit 0 is the parity, and the higher bits are those of the half. */
  lemma {:induction false} SetLowBit(n: nat)
    ensures SetBit(n, 0) / 2 == n / 2 && SetBit(n, 0) % 2 == 1
  {
    assert Two(0) == 1;
  }

  lemma {:induction false} SetHighBit(n: nat, k: nat)
    requires k > 0
    ensures SetBit(n, k) / 2 == SetBit(n / 2, k - 1) && SetBit(n, k) % 2 == n % 2
  {
    DivideTwice(n, Two(k - 1));
    AddTwice(n, Two(k - 1));
  }

  lemma {:induction false} AddTwice(n: nat, t: nat)
    ensures (n + 2 * t) / 2 == n / 2 + t && (n + 2 * t) % 2 == n % 2
  {
  }

  lemma {:induction false} BitsUnfold(n: nat, width: nat)
    requires width > 0
    ensures BitsOf(n, width) == [n % 2 == 1] + BitsOf(n / 2, width - 1)
    ensures n < Two(width) <==> n / 2 < Two(width - 1)
  {
  }

  lemma {:induction false} SetBitBits(n: nat, width: nat, k: nat)
    requires k < width
    ensures BitsOf(SetBit(n, k), width) == BitsOf(n, width)[k := true]
    ensures n < Two(width) ==> SetBit(n, k) < Two(width)
  {
    hide BitsOf, SetBit, Two;
    BitsUnfold(n, width);
    BitsUnfold(SetBit(n, k), width);
    var half := BitsOf(n / 2, width - 1);
    if k == 0 {
      SetLowBit(n);
      assert BitsOf(n, width)[0 := true] == [true] + half;
    } else {
      SetHighBit(n, k);
      SetBitBits(n / 2, width - 1, k - 1);
      assert BitsOf(n, width)[k := true] == [n % 2 == 1] + half[k - 1 := true];
    }
  }

  lemma {:induction false} MessageBitAt(s: seq<byte>, i: nat)
    requires i < 8 * |s|
    ensures MessageBits(s)[i] <==> TestBit(s[i / 8], i % 8)
    decreases |s|
  {
    hide BitsOf, Two, TestBit;
    var head, tail := ByteBits(s[0]), MessageBits(s[1..]);
    assert MessageBits(s) == head + tail;
    if i < 8 {
      BitAt(s[0], 8, i);
    } else {
      MessageBitAt(s[1..], i - 8);
      assert s[i / 8] == s[1..][(i - 8) / 8];
    }
  }

  lemma {:induction false} DivideTwice(n: nat, t: nat)
    requires t > 0
    ensures n / 2 / t == n / (2 * t)
  {
    var q := n / (2 * t);
    var r := n % (2 * t);
    assert n == (2 * t) * q + r;
    assert n / 2 == t * q + r / 2 by {
      assert (2 * t) * q == 2 * (t * q);
    }
    assert 0 <= r / 2 < t;
    Quotient(n / 2, t, q, r / 2);
  }

  lemma {:induction false} Quotient(n: nat, t: nat, q: nat, r: nat)
    requires r < t && n == t * q + r
    ensures n / t == q
  {
    UniqueRemainder(n, t, q, r);
    assert t * (n / t) == t * q;
    SameFactor(t, n / t, q);
  }

  lemma {:induction false} SameFactor(t: nat, a: nat, b: nat)
    requires t > 0 && t * a == t * b
    ensures a == b
  {
    MultipleIsFar(t, a - b);
    assert t * (a - b) == 0;
  }
}
