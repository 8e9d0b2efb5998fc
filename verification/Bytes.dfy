/** Bytes and the little-endian integers that every layer of the protocol is made of. */
module Bytes {

  type byte = b: int | 0 <= b < 256

  /** The errors that reach the driver's error handling. */
  datatype Error = UnexpectedEOF | Malformed | Sequence | BadFrame

  datatype Option<+T> = None | Some(value: T)

  datatype Result<+T> = Ok(value: T) | Err(error: Error)

  function Radix(width: nat): (r: nat)
    ensures r > 0
  {
    if width == 0 then 1 else 256 * Radix(width - 1)
  }

  lemma {:induction false} RadixValues()
    ensures Radix(1) == 0x100
    ensures Radix(2) == 0x1_0000
    ensures Radix(3) == 0x100_0000
    ensures Radix(4) == 0x1_0000_0000
    ensures Radix(8) == 0x1_0000_0000_0000_0000
  {
    assert Radix(3) == 256 * Radix(2);
    assert Radix(5) == 256 * Radix(4);
    assert Radix(6) == 256 * Radix(5);
    assert Radix(7) == 256 * Radix(6);
  }

  /** The `width` low-order bytes of `n`, least significant first: what byte(n), byte(n>>8), ... yield. */
  function LittleEndian(n: nat, width: nat): (s: seq<byte>)
    ensures |s| == width
  {
    if width == 0 then [] else [n % 256] + LittleEndian(n / 256, width - 1)
  }

  /** The unsigned integer that the bytes of `s` spell, least significant first. */
  function Value(s: seq<byte>): (n: nat)
    ensures n < Radix(|s|)
  {
    if s == [] then 0 else s[0] + 256 * Value(s[1..])
  }

  /** Storing an integer in `width` bytes and reading it back truncates it, and only that. */
  lemma {:induction false} ValueOfLittleEndian(n: nat, width: nat)
    ensures Value(LittleEndian(n, width)) == n % Radix(width)
  {
    if width > 0 {
      ValueOfLittleEndian(n / 256, width - 1);
      DigitOfModulus(n, Radix(width - 1));
    }
  }

  lemma {:induction false} DigitOfModulus(n: nat, r: nat)
    requires r > 0
    ensures n % (256 * r) == n % 256 + 256 * ((n / 256) % r)
  {
    var q, d := n / 256, n % 256;
    var h, l := q / r, q % r;
    assert n == (256 * r) * h + (d + 256 * l) by {
      assert q == r * h + l;
      assert 256 * q == 256 * (r * h) + 256 * l;
      assert 256 * (r * h) == (256 * r) * h;
    }
    assert 0 <= d + 256 * l < 256 * r;
    UniqueRemainder(n, 256 * r, h, d + 256 * l);
  }

  lemma {:induction false} UniqueRemainder(n: nat, m: nat, q: nat, r: nat)
    requires m > 0 && r < m && n == m * q + r
    ensures n % m == r
  {
    var q', r' := n / m, n % m;
    assert m * (q' - q) == r - r';
    MultipleIsFar(m, q' - q);
  }

  lemma {:induction false} MultipleIsFar(m: nat, k: int)
    ensures k >= 1 ==> m * k >= m
    ensures k <= -1 ==> m * k + m <= 0
  {
  }

  /** Reading bytes as an integer loses nothing: the same number of bytes can be written again. */
  lemma {:induction false} LittleEndianOfValue(s: seq<byte>)
    ensures LittleEndian(Value(s), |s|) == s
  {
    if s != [] {
      Digits(s[0], Value(s[1..]));
      LittleEndianOfValue(s[1..]);
      assert [s[0]] + s[1..] == s;
    }
  }

  lemma {:induction false} Digits(d: byte, v: nat)
    ensures (d + 256 * v) % 256 == d && (d + 256 * v) / 256 == v
  {
  }
}
