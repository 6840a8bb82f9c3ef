/** Machine words, powers of two and bit sequences shared by all models.
    C shifts and masks are written with division and remainder on ranges. */
module Bits {

  type byte = x: int | 0 <= x < 256

  type uint32 = x: int | 0 <= x < 0x1_0000_0000

  type int32 = x: int | -0x8000_0000 <= x < 0x8000_0000

  type int64 = x: int | -0x8000_0000_0000_0000 <= x < 0x8000_0000_0000_0000

  type bit = x: int | 0 <= x <= 1

  function Pow2(k: nat): (p: nat)
    ensures p >= 1
  {
    if k == 0 then 1 else 2 * Pow2(k - 1)
  }

  lemma {:induction false} Pow2Add(a: nat, b: nat)
    ensures Pow2(a + b) == Pow2(a) * Pow2(b)
  {
    if a > 0 {
      Pow2Add(a - 1, b);
    }
  }

  lemma {:induction false} Pow2Monotone(a: nat, b: nat)
    requires a <= b
    ensures Pow2(a) <= Pow2(b)
    decreases b
  {
    if a < b {
      Pow2Monotone(a, b - 1);
    }
  }

  /** Bit k of a byte, least significant bit first. */
  function BitOf(b: byte, k: nat): bit
    requires k < 8
  {
    (b / Pow2(k)) % 2
  }

  /** The bits of a byte string, each byte least significant bit first. */
  function BytesToBits(s: seq<byte>): (r: seq<bit>)
    ensures |r| == 8 * |s|
  {
    seq(8 * |s|, k requires 0 <= k < 8 * |s| => BitOf(s[k / 8], k % 8))
  }

  /** Value of a bit string whose first bit is the least significant. */
  function ValueLsb(bs: seq<bit>): (v: nat)
  {
    if bs == [] then 0 else bs[0] + 2 * ValueLsb(bs[1..])
  }

  /** Value of a bit string whose first bit is the most significant. */
  function ValueMsb(bs: seq<bit>): (v: nat)
  {
    if bs == [] then 0 else 2 * ValueMsb(bs[..|bs| - 1]) + bs[|bs| - 1]
  }

  lemma {:induction false} ValueLsbBound(bs: seq<bit>)
    ensures ValueLsb(bs) < Pow2(|bs|)
  {
    if bs != [] {
      ValueLsbBound(bs[1..]);
    }
  }

  lemma {:induction false} ValueMsbBound(bs: seq<bit>)
    ensures ValueMsb(bs) < Pow2(|bs|)
  {
    if bs != [] {
      ValueMsbBound(bs[..|bs| - 1]);
    }
  }

  lemma {:induction false} ValueLsbAppend(a: seq<bit>, b: seq<bit>)
    ensures ValueLsb(a + b) == ValueLsb(a) + Pow2(|a|) * ValueLsb(b)
  {
    if a == [] {
      assert a + b == b;
    } else {
      hide Pow2;
      assert (a + b)[1..] == a[1..] + b;
      ValueLsbAppend(a[1..], b);
      DoublePow(|a|, ValueLsb(b));
    }
  }

  lemma DoublePow(n: nat, v: nat)
    requires n > 0
    ensures Pow2(n) * v == 2 * (Pow2(n - 1) * v)
  {
  }

  /** Bit k of a value is the k-th bit of the string it was read from. */
  lemma {:induction false} ValueLsbDigit(bs: seq<bit>, k: nat)
    requires k < |bs|
    ensures (ValueLsb(bs) / Pow2(k)) % 2 == bs[k]
  {
    if k > 0 {
      ValueLsbDigit(bs[1..], k - 1);
      var v, p := ValueLsb(bs[1..]), Pow2(k - 1);
      HalfFirst(bs[0], v, p);
    }
  }

  /** The n low bits of v, least significant first. */
  function LowBits(v: nat, n: nat): (r: seq<bit>)
    ensures |r| == n
  {
    if n == 0 then [] else [v % 2] + LowBits(v / 2, n - 1)
  }

  lemma {:induction false} LowBitsAt(v: nat, n: nat, k: nat)
    requires k < n
    ensures LowBits(v, n)[k] == (v / Pow2(k)) % 2
  {
    if k > 0 {
      LowBitsAt(v / 2, n - 1, k - 1);
      HalfFirst(v % 2, v / 2, Pow2(k - 1));
    }
  }

  lemma {:induction false} LowBitsValue(v: nat, n: nat)
    requires v < Pow2(n)
    ensures ValueLsb(LowBits(v, n)) == v
  {
    if n > 0 {
      LowBitsValue(v / 2, n - 1);
      assert LowBits(v, n)[1..] == LowBits(v / 2, n - 1);
    }
  }

  lemma {:induction false} LowBitsOfValue(bs: seq<bit>)
    ensures LowBits(ValueLsb(bs), |bs|) == bs
  {
    if bs != [] {
      LowBitsOfValue(bs[1..]);
    }
  }

  /** A byte is the value of its eight bits. */
  lemma ByteValue(b: byte)
    ensures ValueLsb(LowBits(b, 8)) == b
    ensures forall k | 0 <= k < 8 :: LowBits(b, 8)[k] == BitOf(b, k)
  {
    assert Pow2(8) == 256;
    LowBitsValue(b, 8);
    forall k | 0 <= k < 8 ensures LowBits(b, 8)[k] == BitOf(b, k) {
      LowBitsAt(b, 8, k);
    }
  }

  lemma HalfFirst(b: bit, v: nat, p: nat)
    requires p > 0
    ensures (b + 2 * v) / (2 * p) == v / p
  {
    var q, r := v / p, v % p;
    assert v == q * p + r;
    assert b + 2 * v == q * (2 * p) + (b + 2 * r);
    assert 0 <= b + 2 * r < 2 * p;
    DivUnique(b + 2 * v, 2 * p, q, b + 2 * r);
  }

  lemma DivUnique(x: int, d: int, q: int, r: int)
    requires d > 0 && x == q * d + r && 0 <= r < d
    ensures x / d == q && x % d == r
  {
    var q' := x / d;
    var r' := x % d;
    assert x == q' * d + r';
    var e := q' - q;
    assert e * d == q' * d - q * d;
    if e >= 1 {
      MulAtLeast(e, d);
    } else if e <= -1 {
      MulAtLeast(-e, d);
    }
  }

  lemma MulAtLeast(e: int, d: int)
    requires e >= 1 && d >= 0
    ensures e * d >= d
  {
  }

  /** b with bit k set to v. */
  function SetBit(b: byte, k: nat, v: bit): (r: byte)
    requires k < 8
    ensures forall j | 0 <= j < 8 :: BitOf(r, j) == if j == k then v else BitOf(b, j)
  {
    var bs := LowBits(b, 8)[k := v];
    ByteValue(b);
    BitsOfValue(bs);
    ValueLsb(bs)
  }

  lemma BitsOfValue(bs: seq<bit>)
    requires |bs| == 8
    ensures ValueLsb(bs) < 256
    ensures forall j | 0 <= j < 8 :: (ValueLsb(bs) / Pow2(j)) % 2 == bs[j]
  {
    ValueLsbBound(bs);
    assert Pow2(8) == 256;
    forall j | 0 <= j < 8 ensures (ValueLsb(bs) / Pow2(j)) % 2 == bs[j] {
      ValueLsbDigit(bs, j);
    }
  }

  /** The bits of a byte string begin with those of its first byte. */
  lemma NextByte(input: seq<byte>, pos: nat)
    requires pos < |input|
    ensures BytesToBits(input[pos..]) == LowBits(input[pos], 8) + BytesToBits(input[pos + 1..])
    ensures input[pos] < Pow2(8)
  {
    ByteValue(input[pos]);
    assert Pow2(8) == 256;
    hide Pow2;
    var s := input[pos..];
    assert s[1..] == input[pos + 1..];
    var l, r := BytesToBits(s), LowBits(s[0], 8) + BytesToBits(s[1..]);
    forall k | 0 <= k < |l| ensures l[k] == r[k] {
      if k >= 8 {
        ByteIndex(k);
      }
    }
  }

  lemma ByteIndex(k: nat)
    requires k >= 8
    ensures (k - 8) / 8 == k / 8 - 1 && (k - 8) % 8 == k % 8
  {
  }

  /** A byte is determined by its bits. */
  lemma SameBitsSameByte(a: byte, b: byte)
    requires forall k | 0 <= k < 8 :: BitOf(a, k) == BitOf(b, k)
    ensures a == b
  {
    ByteValue(a);
    ByteValue(b);
    assert LowBits(a, 8) == LowBits(b, 8);
  }

  /** The pieces of a message put together. */
  function Concat(parts: seq<seq<byte>>): seq<byte> {
    if parts == [] then [] else Concat(parts[..|parts| - 1]) + parts[|parts| - 1]
  }

  /* ---- Little-endian words ---- */

  function Le32(v: uint32): (r: seq<byte>)
    ensures |r| == 4
  {
    [v % 256, (v / 256) % 256, (v / 65536) % 256, v / 16777216]
  }

  function FromLe32(s: seq<byte>): uint32
    requires |s| == 4
  {
    s[0] as int + 256 * (s[1] as int) + 65536 * (s[2] as int) + 16777216 * (s[3] as int)
  }

  lemma Le32RoundTrip(v: uint32)
    ensures FromLe32(Le32(v)) == v
  {
    var a := v / 256;
    var b := a / 256;
    var c := b / 256;
    assert v / 65536 == b && v / 16777216 == c;
    assert v == v % 256 + 256 * a && a == a % 256 + 256 * b && b == b % 256 + 256 * c;
  }
}
