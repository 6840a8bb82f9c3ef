/** The two exponentiation ladders of the field: fe_invert and fe_pow22523. */
module FieldPower {
  import opened Bits
  import opened Congruence
  import opened FieldLimbs
  import opened FieldOps

  function Pow(x: int, n: nat): int {
    if n == 0 then 1 else x * Pow(x, n - 1)
  }

  lemma {:induction false} PowAdd(x: int, a: nat, b: nat)
    ensures Pow(x, a + b) == Pow(x, a) * Pow(x, b)
  {
    if a > 0 {
      hide Pow;
      PowAdd(x, a - 1, b);
      PowStep(x, a);
      PowStep(x, a + b);
      Regroup(x, Pow(x, a - 1), Pow(x, b));
    } else {
      assert Pow(x, 0) == 1;
    }
  }

  lemma PowStep(x: int, n: nat)
    requires n > 0
    ensures Pow(x, n) == x * Pow(x, n - 1)
  {
  }

  lemma PowOne(x: int)
    ensures Pow(x, 1) == x
  {
    PowStep(x, 1);
  }

  /** The array holds z^e, in limbs that may be multiplied. */
  ghost predicate Holds(a: array<int32>, z: int, e: nat)
    requires a.Length == 10
    reads a
  {
    Within(F(a), 4) && Cong(P, Pow(z, e), Val(F(a)))
  }

  lemma WithinMore(x: Fe, j: int, k: int)
    requires Within(x, j) && j <= k
    ensures Within(x, k)
  {
    ScaleBounds(j, k);
  }

  lemma ScaleBounds(j: int, k: int)
    requires j <= k
    ensures j * 0x205_0000 <= k * 0x205_0000 && j * 0x102_8000 <= k * 0x102_8000
  {
  }

  method MulPowers(h: array<int32>, f: array<int32>, g: array<int32>, ghost z: int, ghost a: nat, ghost b: nat)
    requires h.Length == 10 && f.Length == 10 && g.Length == 10 && Holds(f, z, a) && Holds(g, z, b)
    modifies h
    ensures Holds(h, z, a + b) && Within(F(h), 1)
  {
    hide Cong, Within, F, Pow, Val;
    ghost var x, y := Val(F(f)), Val(F(g));
    Mul(h, f, g);
    WithinMore(F(h), 1, 4);
    PowAdd(z, a, b);
    CongMul(P, Pow(z, a), Pow(z, b), x, y);
    CongTrans(P, Pow(z, a + b), x * y, Val(F(h)));
  }

  method SqPower(h: array<int32>, f: array<int32>, ghost z: int, ghost a: nat)
    requires h.Length == 10 && f.Length == 10 && Holds(f, z, a)
    modifies h
    ensures Holds(h, z, 2 * a)
  {
    hide Cong, Within, F, Pow, Val;
    ghost var x := Val(F(f));
    Sq(h, f);
    WithinMore(F(h), 1, 4);
    PowAdd(z, a, a);
    CongMul(P, Pow(z, a), Pow(z, a), x, x);
    CongTrans(P, Pow(z, 2 * a), x * x, Val(F(h)));
  }

  /** n squarings, from power a to power b. */
  method SqTimes(h: array<int32>, f: array<int32>, n: nat, ghost z: int, ghost a: nat, ghost b: nat)
    requires h.Length == 10 && f.Length == 10 && n >= 1 && Holds(f, z, a) && b == a * Pow2(n)
    modifies h
    ensures Holds(h, z, b)
  {
    hide Holds;
    SqPower(h, f, z, a);
    ghost var e: nat := 2 * a;
    assert Pow2(1) == 2;
    for i := 1 to n
      invariant Holds(h, z, e) && e == a * Pow2(i)
    {
      SqPower(h, h, z, e);
      NextPower(a, i);
      e := 2 * e;
    }
  }

  lemma NextPower(a: nat, i: nat)
    ensures 2 * (a * Pow2(i)) == a * Pow2(i + 1)
  {
  }

  lemma Powers()
    ensures Pow2(1) == 2 && Pow2(2) == 4 && Pow2(5) == 32 && Pow2(10) == 0x400 && Pow2(20) == 0x10_0000
    ensures Pow2(50) == 0x4_0000_0000_0000 && Pow2(100) == 0x10_0000_0000_0000_0000_0000_0000
  {
    hide Pow2;
    SmallPowers();
    Pow2Add(5, 5);
    Pow2Add(10, 10);
    Pow2Add(20, 20);
    Pow2Add(40, 10);
    Pow2Add(50, 50);
  }

  lemma SmallPowers()
    ensures Pow2(1) == 2 && Pow2(2) == 4 && Pow2(5) == 32
  {
  }

  lemma StartPower(f: array<int32>)
    requires f.Length == 10 && Within(F(f), 4)
    ensures Holds(f, Val(F(f)), 1)
  {
    hide Within, F, Val, Cong;
    PowOne(Val(F(f)));
    CongSame(P, Val(F(f)));
  }

  lemma FinishPower(h: array<int32>, z: int, e: nat)
    requires h.Length == 10 && Holds(h, z, e)
    ensures Cong(P, Pow(z, e), Val(F(h)))
  {
    hide Cong, Within, F, Pow, Val;
  }

  /** 2^250 - 1. */
  const ONES250: nat := 0x3ff_ffff_ffff_ffff_ffff_ffff_ffff_ffff_ffff_ffff_ffff_ffff_ffff_ffff_ffff_ffff

  /** From 2^5 - 1 to 2^50 - 1, the part both ladders share. */
  method LowerPowers(t0: array<int32>, t1: array<int32>, t2: array<int32>, ghost z: int)
    requires t0.Length == 10 && t1.Length == 10 && t2.Length == 10 && t0 != t1 && t0 != t2 && t1 != t2
    requires Holds(t0, z, 31)
    modifies t0, t1, t2
    ensures Holds(t0, z, 0x3_ffff_ffff_ffff)
  {
    hide Holds, Pow2;
    Powers();
    SqTimes(t1, t0, 5, z, 31, 0x3e0);
    MulPowers(t0, t1, t0, z, 0x3e0, 31);
    SqTimes(t1, t0, 10, z, 0x3ff, 0xf_fc00);
    MulPowers(t1, t1, t0, z, 0xf_fc00, 0x3ff);
    SqTimes(t2, t1, 20, z, 0xf_ffff, 0xff_fff0_0000);
    MulPowers(t1, t2, t1, z, 0xff_fff0_0000, 0xf_ffff);
    SqTimes(t1, t1, 10, z, 0xff_ffff_ffff, 0x3_ffff_ffff_fc00);
    MulPowers(t0, t1, t0, z, 0x3_ffff_ffff_fc00, 0x3ff);
  }

  /** From 2^50 - 1 to 2^250 - 1, shared as well. */
  method UpperPowers(t0: array<int32>, t1: array<int32>, t2: array<int32>, ghost z: int)
    requires t0.Length == 10 && t1.Length == 10 && t2.Length == 10 && t0 != t1 && t0 != t2 && t1 != t2
    requires Holds(t0, z, 0x3_ffff_ffff_ffff)
    modifies t0, t1, t2
    ensures Holds(t0, z, ONES250)
  {
    hide Holds, Pow2;
    Powers();
    SqTimes(t1, t0, 50, z, 0x3_ffff_ffff_ffff, 0xf_ffff_ffff_fffc_0000_0000_0000);
    MulPowers(t1, t1, t0, z, 0xf_ffff_ffff_fffc_0000_0000_0000, 0x3_ffff_ffff_ffff);
    ghost var a := 0xf_ffff_ffff_ffff_ffff_ffff_ffff * 0x10_0000_0000_0000_0000_0000_0000;
    SqTimes(t2, t1, 100, z, 0xf_ffff_ffff_ffff_ffff_ffff_ffff, a);
    MulPowers(t1, t2, t1, z, a, 0xf_ffff_ffff_ffff_ffff_ffff_ffff);
    ghost var b := 0xff_ffff_ffff_ffff_ffff_ffff_ffff_ffff_ffff_ffff_ffff_ffff_ffff;
    SqTimes(t1, t1, 50, z, b, b * 0x4_0000_0000_0000);
    MulPowers(t0, t1, t0, z, b * 0x4_0000_0000_0000, 0x3_ffff_ffff_ffff);
  }

  /** fe_invert: the power p - 2. */
  method Invert(h: array<int32>, f: array<int32>)
    requires h.Length == 10 && f.Length == 10 && Within(F(f), 4)
    modifies h
    ensures Within(F(h), 1) && Cong(P, Pow(old(Val(F(f))), P - 2), Val(F(h)))
  {
    hide Cong, Within, F, Pow, Val, Holds, Pow2;
    ghost var z := Val(F(f));
    StartPower(f);
    Powers();
    var t0, t1, t2, t3 := new int32[10], new int32[10], new int32[10], new int32[10];
    SqPower(t0, f, z, 1);
    SqTimes(t1, t0, 2, z, 2, 8);
    MulPowers(t1, t1, f, z, 8, 1);
    MulPowers(t0, t0, t1, z, 2, 9);
    SqPower(t2, t0, z, 11);
    MulPowers(t1, t2, t1, z, 22, 9);
    LowerPowers(t1, t2, t3, z);
    UpperPowers(t1, t2, t3, z);
    SqTimes(t1, t1, 5, z, ONES250, 32 * ONES250);
    MulPowers(h, t1, t0, z, 32 * ONES250, 11);
    FinishPower(h, z, P - 2);
  }

  /** fe_pow22523: the power (p - 5) / 8 = 2^252 - 3. */
  method Pow22523(h: array<int32>, f: array<int32>)
    requires h.Length == 10 && f.Length == 10 && Within(F(f), 4)
    modifies h
    ensures Within(F(h), 1) && Cong(P, Pow(old(Val(F(f))), (P - 5) / 8), Val(F(h)))
  {
    hide Cong, Within, F, Pow, Val, Holds, Pow2;
    ghost var z := Val(F(f));
    StartPower(f);
    Powers();
    var t0, t1, t2 := new int32[10], new int32[10], new int32[10];
    SqPower(t0, f, z, 1);
    SqTimes(t1, t0, 2, z, 2, 8);
    MulPowers(t1, t1, f, z, 8, 1);
    MulPowers(t0, t0, t1, z, 2, 9);
    SqPower(t0, t0, z, 11);
    MulPowers(t0, t0, t1, z, 22, 9);
    LowerPowers(t0, t1, t2, z);
    UpperPowers(t0, t1, t2, z);
    SqPower(t0, t0, z, ONES250);
    SqPower(t0, t0, z, 2 * ONES250);
    MulPowers(h, t0, f, z, 4 * ONES250, 1);
    FinishPower(h, z, (P - 5) / 8);
  }
}
