/** Double and add over the bits of a scalar, and the multiple it makes. */
module EdwardsLadder {
  import opened Bits
  import opened LittleEndian
  import opened Congruence
  import opened FieldLimbs
  import opened FieldBytes
  import opened EdwardsCurve

  /** Bit i of a little-endian scalar. */
  function ScalarBit(scalar: seq<byte>, i: nat): bit
    requires |scalar| == 32 && i < 255
  {
    BitOf(scalar[i / 8], i % 8)
  }

  /** Double and add over bits 254 down to i, for anything that can be doubled and added. */
  function DoubleAndAdd<T>(scalar: seq<byte>, zero: T, double: T -> T, add: (T, T) -> T, a: T, i: nat): T
    requires |scalar| == 32 && i <= 255
    decreases 255 - i
  {
    if i == 255 then zero
    else
      var twice := double(DoubleAndAdd(scalar, zero, double, add, a, i + 1));
      if ScalarBit(scalar, i) == 1 then add(twice, a) else twice
  }

  function Sum(p: Point, q: Point): Point {
    Added(D, p, q)
  }

  /** Double and add on points of the curve. */
  function Ladder(scalar: seq<byte>, a: Point, i: nat): Point
    requires |scalar| == 32 && i <= 255
  {
    DoubleAndAdd(scalar, NEUTRAL, Doubled, Sum, a, i)
  }

  lemma LadderUnrolls(scalar: seq<byte>, a: Point, i: nat)
    requires |scalar| == 32 && i < 255
    ensures Ladder(scalar, a, 255) == NEUTRAL
    ensures var twice := Doubled(Ladder(scalar, a, i + 1));
            Ladder(scalar, a, i) == if ScalarBit(scalar, i) == 1 then Added(D, twice, a) else twice
  {
    hide Doubled, Added, ScalarBit;
  }

  /* ---- The multiple ---- */

  /** The number made of bits i to 254. */
  function BitsFrom(scalar: seq<byte>, i: nat): nat
    requires |scalar| == 32 && i <= 255
  {
    ValueLsb(BytesToBits(scalar)[i..255])
  }

  lemma BitsFromStep(scalar: seq<byte>, i: nat)
    requires |scalar| == 32 && i < 255
    ensures BitsFrom(scalar, 255) == 0
    ensures BitsFrom(scalar, i) == ScalarBit(scalar, i) + 2 * BitsFrom(scalar, i + 1)
  {
    hide BitOf;
    var bs := BytesToBits(scalar);
    assert bs[i..255][1..] == bs[i + 1..255] && bs[i] == ScalarBit(scalar, i);
  }

  lemma AllBits(scalar: seq<byte>)
    requires |scalar| == 32
    ensures BitsFrom(scalar, 0) == Num(scalar) % TWO255
  {
    var bs := BytesToBits(scalar);
    var low, top := bs[..255], bs[255..];
    NumOfBits(scalar);
    assert bs == low + top && bs[0..255] == low;
    hide ValueLsb, BytesToBits, Pow2, Num;
    ValueLsbAppend(low, top);
    ValueLsbBound(low);
    Power255();
    DivUnique(Num(scalar), TWO255, ValueLsb(top), ValueLsb(low));
  }

  lemma Power255()
    ensures Pow2(255) == TWO255
  {
    assert Pow2(8) == 0x100 && Pow2(7) == 0x80;
    hide Pow2;
    Pow2Add(8, 8);
    Pow2Add(16, 16);
    Pow2Add(32, 32);
    Pow2Add(64, 64);
    Pow2Add(64, 32);
    Pow2Add(96, 16);
    Pow2Add(112, 8);
    Pow2Add(120, 7);
    Pow2Add(128, 127);
  }

  /** Whatever relation between numbers and things is kept by doubling and by adding a also holds at the end. */
  lemma {:induction false} DoubleAndAddKeeps<T>(
      scalar: seq<byte>, zero: T, double: T -> T, add: (T, T) -> T, a: T, i: nat, rel: (int, T) -> bool)
    requires |scalar| == 32 && i <= 255 && rel(0, zero)
    requires forall n, t | rel(n, t) :: rel(2 * n, double(t))
    requires forall n, t | rel(n, t) :: rel(n + 1, add(t, a))
    ensures rel(BitsFrom(scalar, i), DoubleAndAdd(scalar, zero, double, add, a, i))
    decreases 255 - i
  {
    hide BitsFrom, ScalarBit;
    if i == 255 {
      BitsFromStep(scalar, 0);
    } else {
      BitsFromStep(scalar, i);
      DoubleAndAddKeeps(scalar, zero, double, add, a, i + 1, rel);
      var n, t := BitsFrom(scalar, i + 1), DoubleAndAdd(scalar, zero, double, add, a, i + 1);
      var m, twice := 2 * n, double(t);
      assert rel(m, twice);
      OneMore(add, a, rel, m, twice);
      assert BitsFrom(scalar, i) == if ScalarBit(scalar, i) == 1 then m + 1 else m;
    }
  }

  lemma OneMore<T>(add: (T, T) -> T, a: T, rel: (int, T) -> bool, m: int, p: T)
    requires rel(m, p)
    requires forall n, t | rel(n, t) :: rel(n + 1, add(t, a))
    ensures rel(m + 1, add(p, a))
  {
  }

  function TwiceInt(x: int): int {
    2 * x
  }

  function AddInt(x: int, y: int): int {
    x + y
  }

  /** Over the integers, double and add multiplies by the scalar without its top bit. */
  lemma LadderMultiplies(scalar: seq<byte>, a: int)
    requires |scalar| == 32
    ensures DoubleAndAdd(scalar, 0, TwiceInt, AddInt, a, 0) == (Num(scalar) % TWO255) * a
  {
    hide BitsFrom, Num, DoubleAndAdd;
    var rel := (n: int, x: int) => x == n * a;
    forall n, x | rel(n, x) ensures rel(2 * n, TwiceInt(x)) && rel(n + 1, AddInt(x, a)) {
      assert (2 * n) * a == 2 * (n * a) && (n + 1) * a == n * a + a;
    }
    DoubleAndAddKeeps(scalar, 0, TwiceInt, AddInt, a, 0, rel);
    AllBits(scalar);
  }

  /* ---- On the curve ---- */

  /** Every point the ladder passes is on the curve. */
  lemma {:induction false} LadderOnCurve(scalar: seq<byte>, a: Point, i: nat)
    requires |scalar| == 32 && i <= 255 && OnCurve(P, D, a)
    ensures OnCurve(P, D, Ladder(scalar, a, i))
    decreases 255 - i
  {
    hide OnCurve, Doubled, Added, Ladder;
    if i == 255 {
      LadderUnrolls(scalar, a, 0);
      NeutralOnCurve(P, D);
    } else {
      LadderUnrolls(scalar, a, i);
      LadderOnCurve(scalar, a, i + 1);
      DoubledOnCurve(P, D, Ladder(scalar, a, i + 1));
      if ScalarBit(scalar, i) == 1 {
        AddedOnCurve(P, D, Doubled(Ladder(scalar, a, i + 1)), a);
      }
    }
  }

  /** The addition law of the curve carries a numbering of points over to sums. */
  ghost predicate KeptBySums(rel: (int, Point) -> bool) {
    forall m, n, p, q, r | rel(m, p) && rel(n, q) && OnCurve(P, D, p) && OnCurve(P, D, q) && IsSum(P, D, r, p, q) ::
      rel(m + n, r)
  }

  /** Any numbering of points that has 0 for the neutral point, 1 for a, and the sum of the numbers for a sum
      has the scalar without its top bit for the result of the ladder. */
  lemma LadderIsMultiple(scalar: seq<byte>, a: Point, rel: (int, Point) -> bool)
    requires |scalar| == 32 && OnCurve(P, D, a) && rel(0, NEUTRAL) && rel(1, a) && KeptBySums(rel)
    ensures rel(Num(scalar) % TWO255, Ladder(scalar, a, 0))
  {
    hide OnCurve, IsSum, Doubled, Added, BitsFrom, Num, DoubleAndAdd, KeptBySums;
    var both := (n: int, p: Point) => OnCurve(P, D, p) && rel(n, p);
    NeutralOnCurve(P, D);
    forall n, p | both(n, p) ensures both(2 * n, Doubled(p)) && both(n + 1, Sum(p, a)) {
      DoubledOnCurve(P, D, p);
      AddedOnCurve(P, D, p, a);
      NumberedSums(n, p, a, rel);
    }
    DoubleAndAddKeeps(scalar, NEUTRAL, Doubled, Sum, a, 0, both);
    AllBits(scalar);
  }

  lemma NumberedSums(n: int, p: Point, a: Point, rel: (int, Point) -> bool)
    requires OnCurve(P, D, p) && OnCurve(P, D, a) && rel(n, p) && rel(1, a) && KeptBySums(rel)
    ensures rel(2 * n, Doubled(p)) && rel(n + 1, Added(D, p, a))
  {
    hide OnCurve, IsSum, Doubled, Added;
    DoubledIsSum(P, D, p);
    AddedIsSum(P, D, p, a);
    assert rel(n + n, Doubled(p));
  }

  /** The neutral point added to p is p. */
  lemma NeutralSum(modulus: int, coef: int, p: Point)
    ensures IsSum(modulus, coef, p, NEUTRAL, p)
  {
    hide Cong;
    assert p.x * ((p.z * 1) * (p.z * 1)) == p.z * ((p.x * 1) * (p.z * 1));
    assert p.y * ((p.z * 1) * (p.z * 1)) == p.z * ((p.y * 1) * (p.z * 1));
    CongSame(modulus, p.x * (p.z * p.z));
    CongSame(modulus, p.y * (p.z * p.z));
  }
}
