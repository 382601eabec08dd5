/**
 * Bit strings and bytes, and the two Python built-ins the packer relies on:
 * `int(bits, 2)` and `int.to_bytes(length, byteorder='big')`.
 * A bit string is a sequence of the characters '0' and '1', as in the source.
 */
module Bits {
  import opened Wrappers

  type Byte = x: int | 0 <= x < 256

  type Bit = c: char | c == '0' || c == '1' witness '0'

  function BitValue(c: Bit): nat
  {
    if c == '1' then 1 else 0
  }

  function Pow2(n: nat): (p: nat)
    ensures p > 0
  {
    if n == 0 then 1 else 2 * Pow2(n - 1)
  }

  lemma {:induction false} Pow2Add(a: nat, b: nat)
    ensures Pow2(a + b) == Pow2(a) * Pow2(b)
  {
    if b > 0 {
      Pow2Add(a, b - 1);
      calc {
        Pow2(a + b);
        2 * Pow2(a + b - 1);
        2 * (Pow2(a) * Pow2(b - 1));
        Pow2(a) * (2 * Pow2(b - 1));
        Pow2(a) * Pow2(b);
      }
    }
  }

  lemma Pow2Eight()
    ensures Pow2(8) == 256
  {
    assert Pow2(2) == 4;
    assert Pow2(4) == 16;
    assert Pow2(6) == 64;
  }

  /** The value of a string of binary digits, most significant digit first. */
  function BinaryValue(s: seq<Bit>): (v: nat)
    ensures v < Pow2(|s|)
  {
    if s == [] then 0 else 2 * BinaryValue(s[..|s| - 1]) + BitValue(s[|s| - 1])
  }

  /** Python's `int(s, 2)`: a ValueError on the empty string. */
  function ParseBase2(s: seq<Bit>): (r: Option<nat>)
    ensures r.Some? <==> s != []
    ensures r.Some? ==> r.value < Pow2(|s|)
  {
    if s == [] then None else Some(BinaryValue(s))
  }

  /** The `length` low-order base-256 digits of `v`, most significant first. */
  function BigEndian(v: nat, length: nat): (bs: seq<Byte>)
    ensures |bs| == length
  {
    if length == 0 then [] else BigEndian(v / 256, length - 1) + [v % 256]
  }

  /** `int.from_bytes(bs, 'big')`: the value `BigEndian` is checked against. */
  function BytesValue(bs: seq<Byte>): nat
  {
    if bs == [] then 0 else 256 * BytesValue(bs[..|bs| - 1]) + bs[|bs| - 1]
  }

  /** Python's `v.to_bytes(length, byteorder='big')`: an OverflowError when `v` needs more bytes. */
  function ToBytesBig(v: nat, length: nat): (r: Option<seq<Byte>>)
    ensures r.Some? <==> v < Pow2(8 * length)
    ensures r.Some? ==> |r.value| == length && BytesValue(r.value) == v
  {
    if v < Pow2(8 * length) then
      BigEndianValue(v, length);
      Some(BigEndian(v, length))
    else
      None
  }

  lemma {:induction false} BigEndianValue(v: nat, length: nat)
    requires v < Pow2(8 * length)
    ensures BytesValue(BigEndian(v, length)) == v
  {
    if length > 0 {
      Pow2Add(8 * (length - 1), 8);
      Pow2Eight();
      assert v / 256 < Pow2(8 * (length - 1));
      BigEndianValue(v / 256, length - 1);
      var bs := BigEndian(v, length);
      assert bs[..length - 1] == BigEndian(v / 256, length - 1);
    }
  }

  /** Bit `j` of byte `b`, counting from the least significant bit. */
  function BitOf(b: Byte, j: nat): Bit
    requires j < 8
  {
    if (b / Pow2(j)) % 2 == 1 then '1' else '0'
  }

  /** Bit `i` of `bits` is bit `7 - i % 8` of byte `i / 8`: the big-endian packing of `bits`. */
  ghost predicate Packs(bytes: seq<Byte>, bits: seq<Bit>)
  {
    && |bits| == 8 * |bytes|
    && forall i :: 0 <= i < |bits| ==> BitOf(bytes[i / 8], 7 - i % 8) == bits[i]
  }

  lemma {:induction false} BinaryValueAppend(a: seq<Bit>, b: seq<Bit>)
    ensures BinaryValue(a + b) == BinaryValue(a) * Pow2(|b|) + BinaryValue(b)
  {
    if b == [] {
      assert a + b == a;
    } else {
      var b' := b[..|b| - 1];
      var last := b[|b| - 1];
      assert (a + b)[..|a + b| - 1] == a + b';
      assert (a + b)[|a + b| - 1] == last;
      BinaryValueAppend(a, b');
      ShiftInDigit(BinaryValue(a), Pow2(|b'|), BinaryValue(b'), BitValue(last));
    }
  }

  lemma ShiftInDigit(x: int, p: int, y: int, d: int)
    ensures 2 * (x * p + y) + d == x * (2 * p) + (2 * y + d)
  {
  }

  lemma MulMono(a: int, b: int, p: nat)
    requires a <= b
    ensures a * p <= b * p
  {
    var d := b - a;
    assert b * p == a * p + d * p;
  }

  lemma DivMulAdd(x: nat, y: nat, p: nat)
    requires y < p
    ensures (x * p + y) / p == x
    ensures (x * p + y) % p == y
  {
    var n := x * p + y;
    var q, r := n / p, n % p;
    assert n == q * p + r;
    if q > x {
      MulMono(x + 1, q, p);
    } else if q < x {
      MulMono(q + 1, x, p);
    }
  }

  /** Dividing by `2^|b|` drops the low digits `b`. */
  lemma DropLowDigits(a: seq<Bit>, b: seq<Bit>)
    ensures BinaryValue(a + b) / Pow2(|b|) == BinaryValue(a)
  {
    BinaryValueAppend(a, b);
    DivMulAdd(BinaryValue(a), BinaryValue(b), Pow2(|b|));
  }

  /** Dividing by a power of two of the low digits leaves the value of the first `m + 1` digits. */
  lemma HighDigits(c: seq<Bit>, m: nat)
    requires m < |c|
    ensures BinaryValue(c) / Pow2(|c| - 1 - m) == BinaryValue(c[..m + 1])
  {
    assert c == c[..m + 1] + c[m + 1..];
    DropLowDigits(c[..m + 1], c[m + 1..]);
  }

  /** The parity of a binary string's value is its last digit. */
  lemma LastDigit(c: seq<Bit>)
    requires c != []
    ensures BinaryValue(c) % 2 == BitValue(c[|c| - 1])
  {
  }

  /** Digit `m` of a binary string can be read back from its value. */
  lemma DigitOfValue(c: seq<Bit>, m: nat)
    requires m < |c|
    ensures (BinaryValue(c) / Pow2(|c| - 1 - m)) % 2 == BitValue(c[m])
  {
    HighDigits(c, m);
    LastDigit(c[..m + 1]);
    assert c[..m + 1][m] == c[m];
  }

  /** Byte `j` of the big-endian form of a bit string of whole bytes is the value of its `j`-th octet. */
  lemma {:induction false} BigEndianOctet(s: seq<Bit>, k: nat, j: nat)
    requires |s| == 8 * k && j < k
    ensures BigEndian(BinaryValue(s), k)[j] == BinaryValue(s[8 * j..8 * j + 8])
  {
    var p, c := s[..8 * (k - 1)], s[8 * (k - 1)..];
    assert s == p + c;
    BinaryValueAppend(p, c);
    Pow2Eight();
    DivMulAdd(BinaryValue(p), BinaryValue(c), 256);
    if j < k - 1 {
      BigEndianOctet(p, k - 1, j);
      assert s[8 * j..8 * j + 8] == p[8 * j..8 * j + 8];
    } else {
      assert s[8 * j..8 * j + 8] == c;
    }
  }

  /** Bit `7 - m` of the value of the `j`-th octet of `bits` is digit `8 * j + m` of `bits`. */
  lemma OctetDigit(bits: seq<Bit>, j: nat, m: nat)
    requires 8 * j + 8 <= |bits| && m < 8
    ensures BitOf(BinaryValue(bits[8 * j..8 * j + 8]), 7 - m) == bits[8 * j + m]
  {
    var octet := bits[8 * j..8 * j + 8];
    assert octet[m] == bits[8 * j + m];
    DigitOfValue(octet, m);
  }

  /** Bit `i` of a bit string of whole bytes is bit `7 - i % 8` of byte `i / 8` of its big-endian form. */
  lemma PackedBit(bits: seq<Bit>, k: nat, i: nat)
    requires |bits| == 8 * k && i < |bits|
    ensures BitOf(BigEndian(BinaryValue(bits), k)[i / 8], 7 - i % 8) == bits[i]
  {
    var j, m := i / 8, i % 8;
    assert i == 8 * j + m;
    BigEndianOctet(bits, k, j);
    OctetDigit(bits, j, m);
  }

  /**
   * Packing a bit string of whole bytes with `int(bits, 2).to_bytes(len(bits) // 8, 'big')`
   * never overflows and puts bit `i` at bit `7 - i % 8` of byte `i / 8`.
   */
  lemma PackLayout(bits: seq<Bit>)
    requires |bits| % 8 == 0
    ensures ToBytesBig(BinaryValue(bits), |bits| / 8).Some?
    ensures Packs(ToBytesBig(BinaryValue(bits), |bits| / 8).value, bits)
  {
    var k := |bits| / 8;
    assert |bits| == 8 * k;
    var bytes := BigEndian(BinaryValue(bits), k);
    assert ToBytesBig(BinaryValue(bits), k) == Some(bytes);
    forall i | 0 <= i < |bits|
      ensures BitOf(bytes[i / 8], 7 - i % 8) == bits[i]
    {
      PackedBit(bits, k, i);
    }
  }

  function Zeros(n: nat): (z: seq<Bit>)
    ensures |z| == n && forall i :: 0 <= i < n ==> z[i] == '0'
  {
    if n == 0 then [] else Zeros(n - 1) + ['0']
  }

  lemma {:induction false} ZerosValue(n: nat)
    ensures BinaryValue(Zeros(n)) == 0
  {
    if n > 0 {
      assert Zeros(n)[..n - 1] == Zeros(n - 1);
      ZerosValue(n - 1);
    }
  }
}
