/** Bytes and limbs of field elements: fe_tobytes gives the canonical form, fe_frombytes reads any. */
module FieldBytes {
  import opened Bits
  import opened BitOps
  import opened Congruence
  import opened LittleEndian
  import opened FieldLimbs
  import opened FieldOps

  /* ---- The quotient ---- */

  function Up26(x: int): int { x / 0x400_0000 }

  function Rest26(x: int): int { x % 0x400_0000 }

  function Up25(x: int): int { x / 0x200_0000 }

  function Rest25(x: int): int { x % 0x200_0000 }

  lemma Cut26(x: int)
    ensures x == 0x400_0000 * Up26(x) + Rest26(x) && 0 <= Rest26(x) < 0x400_0000
  {
  }

  lemma Cut25(x: int)
    ensures x == 0x200_0000 * Up25(x) + Rest25(x) && 0 <= Rest25(x) < 0x200_0000
  {
  }

  /** The sums the carries of h + q meet, limb by limb. */
  function Sums(h: Fe, q: int): Fe {
    var x0 := h.l0 + q;
    var x1 := h.l1 + Up26(x0);
    var x2 := h.l2 + Up25(x1);
    var x3 := h.l3 + Up26(x2);
    var x4 := h.l4 + Up25(x3);
    var x5 := h.l5 + Up26(x4);
    var x6 := h.l6 + Up25(x5);
    var x7 := h.l7 + Up26(x6);
    var x8 := h.l8 + Up25(x7);
    Fe(x0, x1, x2, x3, x4, x5, x6, x7, x8, h.l9 + Up26(x8))
  }

  /** The carry out of the top: floor((h + q) / 2^255). */
  function Quotient(h: Fe, q: int): int {
    Up25(Sums(h, q).l9)
  }

  /** The remainders the carries leave. */
  function Remainders(h: Fe, q: int): Fe {
    var x := Sums(h, q);
    Fe(Rest26(x.l0), Rest25(x.l1), Rest26(x.l2), Rest25(x.l3), Rest26(x.l4), Rest25(x.l5), Rest26(x.l6), Rest25(x.l7),
      Rest26(x.l8), Rest25(x.l9))
  }

  /** Limbs without sign, as wide as their places. */
  predicate Canonical(x: Fe) {
    && 0 <= x.l0 < 0x400_0000 && 0 <= x.l1 < 0x200_0000 && 0 <= x.l2 < 0x400_0000 && 0 <= x.l3 < 0x200_0000
    && 0 <= x.l4 < 0x400_0000 && 0 <= x.l5 < 0x200_0000 && 0 <= x.l6 < 0x400_0000 && 0 <= x.l7 < 0x200_0000
    && 0 <= x.l8 < 0x400_0000 && 0 <= x.l9 < 0x200_0000
  }

  const TWO255: int := P + 19

  lemma LowerCarries(h: Fe, q: int)
    ensures var x, r := Sums(h, q), Remainders(h, q);
            && 0 <= r.l0 < 0x400_0000 && 0 <= r.l1 < 0x200_0000 && 0 <= r.l2 < 0x400_0000 && 0 <= r.l3 < 0x200_0000
            && 0 <= r.l4 < 0x400_0000 && x.l5 == h.l5 + Up26(x.l4)
            && LowPart(h) + q == LowPart(r) + 0x1_0000_0000_0000_0000_0000_0000_0000_0000 * Up26(x.l4)
  {
    hide Up26, Up25, Rest26, Rest25;
    var x := Sums(h, q);
    Cut26(x.l0);
    Cut25(x.l1);
    Cut26(x.l2);
    Cut25(x.l3);
    Cut26(x.l4);
  }

  lemma UpperCarries(h: Fe, q: int)
    ensures var x, r := Sums(h, q), Remainders(h, q);
            && 0 <= r.l5 < 0x200_0000 && 0 <= r.l6 < 0x400_0000 && 0 <= r.l7 < 0x200_0000 && 0 <= r.l8 < 0x400_0000
            && 0 <= r.l9 < 0x200_0000
            && Upper(h) + Up26(x.l4) == Upper(r) + 0x8000_0000_0000_0000_0000_0000_0000_0000 * Quotient(h, q)
  {
    hide Up26, Up25, Rest26, Rest25;
    var x := Sums(h, q);
    Cut25(x.l5);
    Cut26(x.l6);
    Cut25(x.l7);
    Cut26(x.l8);
    Cut25(x.l9);
  }

  lemma CanonicalRange(x: Fe)
    requires Canonical(x)
    ensures 0 <= Val(x) < TWO255
  {
  }

  /** The estimate fe_tobytes starts from. */
  function Estimate(h: Fe): int {
    (19 * h.l9 + 0x100_0000) / 0x200_0000
  }

  lemma LowerLimbs(h: Fe)
    requires Within(h, 4)
    ensures -0x400_0000_0000_0000_0000_0000_0000_0000_0000_0000_0000_0000_0000_0000_0000 * 4 <= Val(h) - W9 * h.l9
    ensures Val(h) - W9 * h.l9 <= 4 * 0x400_0000_0000_0000_0000_0000_0000_0000_0000_0000_0000_0000_0000_0000_0000
    ensures -4 * TWO255 <= Val(h) <= 4 * TWO255
  {
  }

  /** A quotient by 2^255 after an estimate of v / p is added is the quotient of v by p. */
  lemma QuotientIs(v: int, q0: int, q: int, r: int)
    requires v + q0 == TWO255 * q + r && 0 <= r < TWO255
    requires -3 * TWO255 <= 5 * (TWO255 * q0 - 19 * v) <= 3 * TWO255 && -4 * TWO255 <= v <= 4 * TWO255
    ensures q == v / P
  {
    EstimateRange(v, q0, v / P, v % P);
    DivUnique(v + q0, TWO255, v / P, v % P + q0 - 19 * (v / P));
    DivUnique(v + q0, TWO255, q, r);
  }

  lemma EstimateRange(v: int, q0: int, q: int, r: int)
    requires v == P * q + r && 0 <= r < P
    requires -3 * TWO255 <= 5 * (TWO255 * q0 - 19 * v) <= 3 * TWO255 && -4 * TWO255 <= v <= 4 * TWO255
    ensures 0 <= q0 - 19 * q <= 19
  {
  }

  /** The estimate is near 19 v / 2^255. */
  lemma EstimateNear(h: Fe)
    requires Within(h, 4)
    ensures -3 * TWO255 <= 5 * (TWO255 * Estimate(h) - 19 * Val(h)) <= 3 * TWO255
  {
    hide Val, Within;
    LowerLimbs(h);
  }

  /** The carries of the estimate give the quotient by 2^255 - 19. */
  lemma EstimateIs(h: Fe)
    requires Within(h, 4)
    ensures Quotient(h, Estimate(h)) == Val(h) / P
  {
    hide Sums, Quotient, Remainders, LowPart, Upper, Val, Within, Estimate;
    var q0 := Estimate(h);
    var r := Remainders(h, q0);
    LowerLimbs(h);
    EstimateNear(h);
    LowerCarries(h, q0);
    UpperCarries(h, q0);
    PartsValue(h);
    PartsValue(r);
    CanonicalRange(r);
    QuotientIs(Val(h), q0, Quotient(h, q0), Val(r));
  }

  /** What is left of v + 19 (v / p) below 2^255 is the residue of v. */
  lemma ResidueIs(v: int, q: int, r: int)
    requires v + 19 * (v / P) == TWO255 * q + r && 0 <= r < TWO255
    ensures r == v % P
  {
    assert v == P * (v / P) + v % P;
    DivUnique(v + 19 * (v / P), TWO255, v / P, v % P);
    DivUnique(v + 19 * (v / P), TWO255, q, r);
  }

  /** h with 19 q added below. */
  function Lifted(h: Fe, q: int): Fe {
    h.(l0 := h.l0 + 19 * q)
  }

  lemma LiftedValue(h: Fe, q: int)
    ensures Val(Lifted(h, q)) == Val(h) + 19 * q
  {
  }

  /* ---- Bytes ---- */

  /** The byte of t behind a power of two. */
  function Octet(t: int, d: int): byte
    requires d > 0
  {
    t / d % 0x100
  }

  /** The bits of t from a power of two on. */
  function Top(t: int, d: int): int
    requires d > 0
  {
    t / d
  }

  /** Two limbs meeting in one byte: the top of the first, the start of the second. */
  function Meet(lo: int, hi: int, k: nat): (b: byte)
    requires k < 8 && 0 <= lo < Pow2(k) && 0 <= hi < 0x400_0000
    ensures b == (lo + hi * Pow2(k)) % 0x100
  {
    hide Pow2;
    WordPowers();
    PowersDown(k);
    Splice(lo, hi, k, 40) % 0x100
  }

  lemma WordPowers()
    ensures Pow2(26) == 0x400_0000 && Pow2(32) >= 0x400_0000
  {
    assert Pow2(8) == 0x100 && Pow2(10) == 0x400;
    Pow2Add(8, 8);
    Pow2Add(16, 10);
    Pow2Monotone(26, 32);
  }

  lemma PowersDown(k: nat)
    requires k < 8
    ensures Pow2(40 - k) >= Pow2(32)
  {
    Pow2Monotone(32, 40 - k);
  }

  /** The low bits of t below a power of two. */
  function Below(t: int, d: int): int
    requires d > 0
  {
    t % d
  }

  lemma TopsLow(t0: int, t1: int, t2: int, t3: int)
    requires 0 <= t0 < 0x400_0000 && 0 <= t1 < 0x200_0000 && 0 <= t2 < 0x400_0000 && 0 <= t3 < 0x200_0000
    ensures 0 <= Top(t0, 0x100_0000) < 4 == Pow2(2) && 0 <= Top(t1, 0x40_0000) < 8 == Pow2(3)
    ensures 0 <= Top(t2, 0x20_0000) < 32 == Pow2(5) && 0 <= Top(t3, 0x8_0000) < 64 == Pow2(6)
  {
  }

  lemma TopsHigh(t5: int, t6: int, t7: int, t8: int)
    requires 0 <= t5 < 0x200_0000 && 0 <= t6 < 0x400_0000 && 0 <= t7 < 0x200_0000 && 0 <= t8 < 0x400_0000
    ensures 0 <= Top(t5, 0x100_0000) < 2 == Pow2(1) && 0 <= Top(t6, 0x80_0000) < 8 == Pow2(3)
    ensures 0 <= Top(t7, 0x20_0000) < 16 == Pow2(4) && 0 <= Top(t8, 0x10_0000) < 64 == Pow2(6)
  {
  }

  lemma MeetAt1(lo: int, hi: int)
    requires 0 <= lo < 2 && hi >= 0
    ensures Pow2(1) == 2 && (hi < 0x400_0000 ==> Meet(lo, hi, 1) == lo + 2 * Below(hi, 128))
  {
    hide Meet;
    DivUnique(lo + hi * 2, 0x100, hi / 128, lo + 2 * (hi % 128));
  }

  lemma MeetAt2(lo: int, hi: int)
    requires 0 <= lo < 4 && hi >= 0
    ensures Pow2(2) == 4 && (hi < 0x400_0000 ==> Meet(lo, hi, 2) == lo + 4 * Below(hi, 64))
  {
    hide Meet;
    DivUnique(lo + hi * 4, 0x100, hi / 64, lo + 4 * (hi % 64));
  }

  lemma MeetAt3(lo: int, hi: int)
    requires 0 <= lo < 8 && hi >= 0
    ensures Pow2(3) == 8 && (hi < 0x400_0000 ==> Meet(lo, hi, 3) == lo + 8 * Below(hi, 32))
  {
    hide Meet;
    DivUnique(lo + hi * 8, 0x100, hi / 32, lo + 8 * (hi % 32));
  }

  lemma MeetAt4(lo: int, hi: int)
    requires 0 <= lo < 16 && hi >= 0
    ensures Pow2(4) == 16 && (hi < 0x400_0000 ==> Meet(lo, hi, 4) == lo + 16 * Below(hi, 16))
  {
    hide Meet;
    DivUnique(lo + hi * 16, 0x100, hi / 16, lo + 16 * (hi % 16));
  }

  lemma MeetAt5(lo: int, hi: int)
    requires 0 <= lo < 32 && hi >= 0
    ensures Pow2(5) == 32 && (hi < 0x400_0000 ==> Meet(lo, hi, 5) == lo + 32 * Below(hi, 8))
  {
    hide Meet;
    DivUnique(lo + hi * 32, 0x100, hi / 8, lo + 32 * (hi % 8));
  }

  lemma MeetAt6(lo: int, hi: int)
    requires 0 <= lo < 64 && hi >= 0
    ensures Pow2(6) == 64 && (hi < 0x400_0000 ==> Meet(lo, hi, 6) == lo + 64 * Below(hi, 4))
  {
    hide Meet;
    DivUnique(lo + hi * 64, 0x100, hi / 4, lo + 64 * (hi % 4));
  }

  /** Sixteen bytes of the five lower limbs. */
  function PackLow(t0: int, t1: int, t2: int, t3: int, t4: int): (r: seq<byte>)
    requires 0 <= t0 < 0x400_0000 && 0 <= t1 < 0x200_0000 && 0 <= t2 < 0x400_0000 && 0 <= t3 < 0x200_0000
    requires 0 <= t4 < 0x400_0000
    ensures |r| == 16
  {
    TopsLow(t0, t1, t2, t3);
    [Octet(t0, 1), Octet(t0, 0x100), Octet(t0, 0x1_0000), Meet(Top(t0, 0x100_0000), t1, 2),
      Octet(t1, 64), Octet(t1, 0x4000), Meet(Top(t1, 0x40_0000), t2, 3),
      Octet(t2, 32), Octet(t2, 0x2000), Meet(Top(t2, 0x20_0000), t3, 5),
      Octet(t3, 8), Octet(t3, 0x800), Meet(Top(t3, 0x8_0000), t4, 6),
      Octet(t4, 4), Octet(t4, 0x400), Octet(t4, 0x4_0000)]
  }

  /** Sixteen bytes of the five upper limbs. */
  function PackHigh(t5: int, t6: int, t7: int, t8: int, t9: int): (r: seq<byte>)
    requires 0 <= t5 < 0x200_0000 && 0 <= t6 < 0x400_0000 && 0 <= t7 < 0x200_0000 && 0 <= t8 < 0x400_0000
    requires 0 <= t9 < 0x200_0000
    ensures |r| == 16
  {
    TopsHigh(t5, t6, t7, t8);
    [Octet(t5, 1), Octet(t5, 0x100), Octet(t5, 0x1_0000), Meet(Top(t5, 0x100_0000), t6, 1),
      Octet(t6, 128), Octet(t6, 0x8000), Meet(Top(t6, 0x80_0000), t7, 3),
      Octet(t7, 32), Octet(t7, 0x2000), Meet(Top(t7, 0x20_0000), t8, 4),
      Octet(t8, 16), Octet(t8, 0x1000), Meet(Top(t8, 0x10_0000), t9, 6),
      Octet(t9, 4), Octet(t9, 0x400), Octet(t9, 0x4_0000)]
  }

  function Four(a: byte, b: byte, c: byte, d: byte): int {
    a as int + 0x100 * (b as int) + 0x1_0000 * (c as int) + 0x100_0000 * (d as int)
  }

  /** Sixteen bytes as a sum. */
  lemma SixteenBytes(b0: byte, b1: byte, b2: byte, b3: byte, b4: byte, b5: byte, b6: byte, b7: byte,
                     b8: byte, b9: byte, b10: byte, b11: byte, b12: byte, b13: byte, b14: byte, b15: byte)
    ensures Num([b0, b1, b2, b3, b4, b5, b6, b7, b8, b9, b10, b11, b12, b13, b14, b15]) ==
            Words(Four(b0, b1, b2, b3), Four(b4, b5, b6, b7), Four(b8, b9, b10, b11), Four(b12, b13, b14, b15))
  {
    hide Num, Words, Word, Four;
    var s: seq<byte> := [b0, b1, b2, b3, b4, b5, b6, b7, b8, b9, b10, b11, b12, b13, b14, b15];
    NumWords(s);
    assert s[16..] == [];
    EmptyNum();
    WordIsFour(s, 0);
    WordIsFour(s, 4);
    WordIsFour(s, 8);
    WordIsFour(s, 12);
  }

  lemma WordIsFour(s: seq<byte>, i: nat)
    requires i + 4 <= |s|
    ensures Word(s, i) == Four(s[i], s[i + 1], s[i + 2], s[i + 3])
  {
  }

  lemma EmptyNum()
    ensures Num([]) == 0
  {
  }

  lemma Cut0(t: int)
    requires t >= 0
    ensures t == Octet(t, 1) + 0x100 * Octet(t, 0x100) + 0x1_0000 * Octet(t, 0x1_0000) + 0x100_0000 * Top(t, 0x100_0000)
  {
    assert t / 0x1_0000 == t / 0x100 / 0x100 && t / 0x100_0000 == t / 0x100 / 0x100 / 0x100;
  }

  lemma Cut6(t: int)
    requires t >= 0
    ensures t == Below(t, 64) + 64 * Octet(t, 64) + 0x4000 * Octet(t, 0x4000) + 0x40_0000 * Top(t, 0x40_0000)
  {
    var x := t / 64;
    assert t / 0x4000 == x / 0x100 && t / 0x40_0000 == x / 0x1_0000;
    assert x == x % 0x100 + 0x100 * (x / 0x100) && x / 0x100 == x / 0x100 % 0x100 + 0x100 * (x / 0x1_0000);
  }

  lemma Cut5(t: int)
    requires t >= 0
    ensures t == Below(t, 32) + 32 * Octet(t, 32) + 0x2000 * Octet(t, 0x2000) + 0x20_0000 * Top(t, 0x20_0000)
  {
    var x := t / 32;
    assert t / 0x2000 == x / 0x100 && t / 0x20_0000 == x / 0x1_0000;
    assert x == x % 0x100 + 0x100 * (x / 0x100) && x / 0x100 == x / 0x100 % 0x100 + 0x100 * (x / 0x1_0000);
  }

  lemma Cut3(t: int)
    requires t >= 0
    ensures t == Below(t, 8) + 8 * Octet(t, 8) + 0x800 * Octet(t, 0x800) + 0x8_0000 * Top(t, 0x8_0000)
  {
    var x := t / 8;
    assert t / 0x800 == x / 0x100 && t / 0x8_0000 == x / 0x1_0000;
    assert x == x % 0x100 + 0x100 * (x / 0x100) && x / 0x100 == x / 0x100 % 0x100 + 0x100 * (x / 0x1_0000);
  }

  lemma Cut2(t: int)
    requires t >= 0
    ensures t == Below(t, 4) + 4 * Octet(t, 4) + 0x400 * Octet(t, 0x400) + 0x4_0000 * Top(t, 0x4_0000)
  {
    var x := t / 4;
    assert t / 0x400 == x / 0x100 && t / 0x4_0000 == x / 0x1_0000;
    assert x == x % 0x100 + 0x100 * (x / 0x100) && x / 0x100 == x / 0x100 % 0x100 + 0x100 * (x / 0x1_0000);
  }

  lemma Cut7(t: int)
    requires t >= 0
    ensures t == Below(t, 128) + 128 * Octet(t, 128) + 0x8000 * Octet(t, 0x8000) + 0x80_0000 * Top(t, 0x80_0000)
  {
    var x := t / 128;
    assert t / 0x8000 == x / 0x100 && t / 0x80_0000 == x / 0x1_0000;
    assert x == x % 0x100 + 0x100 * (x / 0x100) && x / 0x100 == x / 0x100 % 0x100 + 0x100 * (x / 0x1_0000);
  }

  lemma Cut4(t: int)
    requires t >= 0
    ensures t == Below(t, 16) + 16 * Octet(t, 16) + 0x1000 * Octet(t, 0x1000) + 0x10_0000 * Top(t, 0x10_0000)
  {
    var x := t / 16;
    assert t / 0x1000 == x / 0x100 && t / 0x10_0000 == x / 0x1_0000;
    assert x == x % 0x100 + 0x100 * (x / 0x100) && x / 0x100 == x / 0x100 % 0x100 + 0x100 * (x / 0x1_0000);
  }

  lemma LastOctet(t: int)
    requires 0 <= t < 0x400_0000
    ensures Octet(t, 0x4_0000) == Top(t, 0x4_0000)
  {
  }

  lemma PackLowValue(t0: int, t1: int, t2: int, t3: int, t4: int)
    requires 0 <= t0 < 0x400_0000 && 0 <= t1 < 0x200_0000 && 0 <= t2 < 0x400_0000 && 0 <= t3 < 0x200_0000
    requires 0 <= t4 < 0x400_0000
    ensures Num(PackLow(t0, t1, t2, t3, t4)) == LowPart(Fe(t0, t1, t2, t3, t4, 0, 0, 0, 0, 0))
  {
    hide Num, Meet, Pow2, Octet, Top, Below;
    TopsLow(t0, t1, t2, t3);
    SixteenBytes(Octet(t0, 1), Octet(t0, 0x100), Octet(t0, 0x1_0000), Meet(Top(t0, 0x100_0000), t1, 2),
      Octet(t1, 64), Octet(t1, 0x4000), Meet(Top(t1, 0x40_0000), t2, 3),
      Octet(t2, 32), Octet(t2, 0x2000), Meet(Top(t2, 0x20_0000), t3, 5),
      Octet(t3, 8), Octet(t3, 0x800), Meet(Top(t3, 0x8_0000), t4, 6),
      Octet(t4, 4), Octet(t4, 0x400), Octet(t4, 0x4_0000));
    LastOctet(t4);
    MeetAt2(Top(t0, 0x100_0000), t1);
    MeetAt3(Top(t1, 0x40_0000), t2);
    MeetAt5(Top(t2, 0x20_0000), t3);
    MeetAt6(Top(t3, 0x8_0000), t4);
    Cut0(t0);
    Cut6(t1);
    Cut5(t2);
    Cut3(t3);
    Cut2(t4);
  }

  lemma PackHighValue(t5: int, t6: int, t7: int, t8: int, t9: int)
    requires 0 <= t5 < 0x200_0000 && 0 <= t6 < 0x400_0000 && 0 <= t7 < 0x200_0000 && 0 <= t8 < 0x400_0000
    requires 0 <= t9 < 0x200_0000
    ensures Num(PackHigh(t5, t6, t7, t8, t9)) == Upper(Fe(0, 0, 0, 0, 0, t5, t6, t7, t8, t9))
  {
    hide Num, Meet, Pow2, Octet, Top, Below;
    TopsHigh(t5, t6, t7, t8);
    SixteenBytes(Octet(t5, 1), Octet(t5, 0x100), Octet(t5, 0x1_0000), Meet(Top(t5, 0x100_0000), t6, 1),
      Octet(t6, 128), Octet(t6, 0x8000), Meet(Top(t6, 0x80_0000), t7, 3),
      Octet(t7, 32), Octet(t7, 0x2000), Meet(Top(t7, 0x20_0000), t8, 4),
      Octet(t8, 16), Octet(t8, 0x1000), Meet(Top(t8, 0x10_0000), t9, 6),
      Octet(t9, 4), Octet(t9, 0x400), Octet(t9, 0x4_0000));
    LastOctet(t9);
    MeetAt1(Top(t5, 0x100_0000), t6);
    MeetAt3(Top(t6, 0x80_0000), t7);
    MeetAt4(Top(t7, 0x20_0000), t8);
    MeetAt6(Top(t8, 0x10_0000), t9);
    Cut0(t5);
    Cut7(t6);
    Cut5(t7);
    Cut4(t8);
    Cut2(t9);
  }

  /* ---- fe_tobytes ---- */

  method PutLow(s: array<byte>, t0: int32, t1: int32, t2: int32, t3: int32, t4: int32)
    requires s.Length == 32
    requires 0 <= t0 < 0x400_0000 && 0 <= t1 < 0x200_0000 && 0 <= t2 < 0x400_0000 && 0 <= t3 < 0x200_0000
    requires 0 <= t4 < 0x400_0000
    modifies s
    ensures s[..16] == PackLow(t0, t1, t2, t3, t4)
  {
    hide Pow2, Octet, Top, Meet;
    TopsLow(t0, t1, t2, t3);
    s[0], s[1], s[2] := Octet(t0, 1), Octet(t0, 0x100), Octet(t0, 0x1_0000);
    s[3] := Meet(Top(t0, 0x100_0000), t1, 2);
    s[4], s[5] := Octet(t1, 64), Octet(t1, 0x4000);
    s[6] := Meet(Top(t1, 0x40_0000), t2, 3);
    s[7], s[8] := Octet(t2, 32), Octet(t2, 0x2000);
    s[9] := Meet(Top(t2, 0x20_0000), t3, 5);
    s[10], s[11] := Octet(t3, 8), Octet(t3, 0x800);
    s[12] := Meet(Top(t3, 0x8_0000), t4, 6);
    s[13], s[14], s[15] := Octet(t4, 4), Octet(t4, 0x400), Octet(t4, 0x4_0000);
  }

  method PutHigh(s: array<byte>, t5: int32, t6: int32, t7: int32, t8: int32, t9: int32)
    requires s.Length == 32
    requires 0 <= t5 < 0x200_0000 && 0 <= t6 < 0x400_0000 && 0 <= t7 < 0x200_0000 && 0 <= t8 < 0x400_0000
    requires 0 <= t9 < 0x200_0000
    modifies s
    ensures forall i | 0 <= i < 32 :: s[i] == if i < 16 then old(s[i]) else PackHigh(t5, t6, t7, t8, t9)[i - 16]
  {
    hide Pow2, Octet, Top, Meet;
    TopsHigh(t5, t6, t7, t8);
    s[16], s[17], s[18] := Octet(t5, 1), Octet(t5, 0x100), Octet(t5, 0x1_0000);
    s[19] := Meet(Top(t5, 0x100_0000), t6, 1);
    s[20], s[21] := Octet(t6, 128), Octet(t6, 0x8000);
    s[22] := Meet(Top(t6, 0x80_0000), t7, 3);
    s[23], s[24] := Octet(t7, 32), Octet(t7, 0x2000);
    s[25] := Meet(Top(t7, 0x20_0000), t8, 4);
    s[26], s[27] := Octet(t8, 16), Octet(t8, 0x1000);
    s[28] := Meet(Top(t8, 0x10_0000), t9, 6);
    s[29], s[30], s[31] := Octet(t9, 4), Octet(t9, 0x400), Octet(t9, 0x4_0000);
  }

  /** The estimated quotient, carried through all limbs. */
  method FindQuotient(t: array<int32>) returns (q: int32)
    requires t.Length == 10 && Within(F(t), 4)
    ensures q == Quotient(F(t), Estimate(F(t))) && -5 <= q <= 5
  {
    hide Up26, Up25;
    UpBounds();
    var s: int32 := 19 * t[9];
    s := s + 0x100_0000;
    q := s / 0x200_0000;
    s := t[0] + q;
    q := Up26(s);
    s := t[1] + q;
    q := Up25(s);
    s := t[2] + q;
    q := Up26(s);
    s := t[3] + q;
    q := Up25(s);
    s := t[4] + q;
    q := Up26(s);
    s := t[5] + q;
    q := Up25(s);
    s := t[6] + q;
    q := Up26(s);
    s := t[7] + q;
    q := Up25(s);
    s := t[8] + q;
    q := Up26(s);
    s := t[9] + q;
    q := Up25(s);
  }

  lemma UpBounds()
    ensures forall x: int :: -0x1000_0000 <= x <= 0x1000_0000 ==> -5 <= Up26(x) <= 5
    ensures forall x: int :: -0x500_0000 <= x <= 0x500_0000 ==> -5 <= Up25(x) <= 5
  {
  }

  /** The limbs with 19 q added, carried up; what leaves the top is dropped. */
  method CarryLifted(h: array<int32>, q: int32) returns (t: Fe)
    requires h.Length == 10 && Within(F(h), 4) && -5 <= q <= 5
    ensures t == Remainders(Lifted(F(h), q), 0)
  {
    hide Up26, Up25, Rest26, Rest25;
    UpBounds();
    var raised: int32 := 19 * q;
    var t0: int32 := h[0] + raised;
    var t1: int32 := h[1] + Up26(t0);
    var t2: int32 := h[2] + Up25(t1);
    var t3: int32 := h[3] + Up26(t2);
    var t4: int32 := h[4] + Up25(t3);
    var t5: int32 := h[5] + Up26(t4);
    var t6: int32 := h[6] + Up25(t5);
    var t7: int32 := h[7] + Up26(t6);
    var t8: int32 := h[8] + Up25(t7);
    var t9: int32 := h[9] + Up26(t8);
    t := Fe(Rest26(t0), Rest25(t1), Rest26(t2), Rest25(t3), Rest26(t4), Rest25(t5), Rest26(t6), Rest25(t7), Rest26(t8),
      Rest25(t9));
  }

  /** The residue in limbs without sign. */
  method Residue(h: array<int32>) returns (t: Fe)
    requires h.Length == 10 && Within(F(h), 4)
    ensures Canonical(t) && Val(t) == Val(F(h)) % P
  {
    hide Sums, Quotient, Remainders, LowPart, Upper, Val, Within, Estimate;
    var q := FindQuotient(h);
    t := CarryLifted(h, q);
    ghost var x := F(h);
    ghost var y := Lifted(x, q);
    EstimateIs(x);
    LiftedValue(x, q);
    LowerCarries(y, 0);
    UpperCarries(y, 0);
    PartsValue(y);
    PartsValue(t);
    CanonicalRange(t);
    ResidueIs(Val(x), Quotient(y, 0), Val(t));
  }

  lemma NumHalves(s: seq<byte>)
    requires |s| == 32
    ensures Num(s) == Num(s[..16]) + W5 * Num(s[16..])
  {
    hide Num, Word, Words;
    NumWords(s);
    NumWords(s[..16]);
    assert s[..16][16..] == [];
    EmptyNum();
    SameWords(s);
  }

  lemma SameWords(s: seq<byte>)
    requires |s| == 32
    ensures Word(s[..16], 0) == Word(s, 0) && Word(s[..16], 4) == Word(s, 4)
    ensures Word(s[..16], 8) == Word(s, 8) && Word(s[..16], 12) == Word(s, 12)
  {
    assert s[..16][0..4] == s[0..4] && s[..16][4..8] == s[4..8];
    assert s[..16][8..12] == s[8..12] && s[..16][12..16] == s[12..16];
  }

  /** fe_tobytes: the residue below 2^255 - 19, whatever limbs stand for it. */
  method ToBytes(s: array<byte>, h: array<int32>)
    requires s.Length == 32 && h.Length == 10 && Within(F(h), 4) && (s as object) != h
    modifies s
    ensures Num(s[..]) == Val(F(h)) % P
  {
    hide Num, Val, Within, Quotient, Estimate, Remainders, Upper, LowPart, PackLow, PackHigh;
    ghost var x := F(h);
    var t := Residue(h);
    PutLow(s, t.l0, t.l1, t.l2, t.l3, t.l4);
    ghost var low := s[..16];
    PutHigh(s, t.l5, t.l6, t.l7, t.l8, t.l9);
    assert s[..][..16] == low && s[..][16..] == PackHigh(t.l5, t.l6, t.l7, t.l8, t.l9);
    NumHalves(s[..]);
    PackLowValue(t.l0, t.l1, t.l2, t.l3, t.l4);
    PackHighValue(t.l5, t.l6, t.l7, t.l8, t.l9);
    TwoHalves(t);
  }

  lemma TwoHalves(t: Fe)
    ensures Val(t) == LowPart(Fe(t.l0, t.l1, t.l2, t.l3, t.l4, 0, 0, 0, 0, 0)) +
                      W5 * Upper(Fe(0, 0, 0, 0, 0, t.l5, t.l6, t.l7, t.l8, t.l9))
  {
  }

  /** fe_iszero: zero modulo 2^255 - 19. */
  method IsZero(f: array<int32>) returns (zero: bool)
    requires f.Length == 10 && Within(F(f), 4)
    ensures zero <==> Val(F(f)) % P == 0
  {
    hide Num, Val, Within, Or;
    var s := new byte[32];
    ToBytes(s, f);
    var x: byte := 0;
    for i := 0 to 32
      invariant x == 0 <==> forall j | 0 <= j < i :: s[j] == 0
    {
      x := OrByte(x, s[i]);
    }
    NumIsZero(s[..]);
    zero := x == 0;
  }

  function OrByte(a: byte, b: byte): (r: byte)
    ensures r == 0 <==> a == 0 && b == 0
  {
    assert Pow2(8) == 0x100;
    OrIsZero(a, b, 8);
    Or(a, b, 8)
  }

  lemma {:induction false} NumIsZero(s: seq<byte>)
    ensures Num(s) == 0 <==> forall j | 0 <= j < |s| :: s[j] == 0
  {
    if s != [] {
      NumIsZero(s[1..]);
      var rest := s[1..];
      if s[0] == 0 && forall j | 0 <= j < |rest| :: rest[j] == 0 {
        forall j | 0 <= j < |s| ensures s[j] == 0 {
          assert j > 0 ==> s[j] == rest[j - 1];
        }
      }
    }
  }

  /** fe_isneg: the parity of the residue. */
  method IsNeg(f: array<int32>) returns (neg: bit)
    requires f.Length == 10 && Within(F(f), 4)
    ensures neg == Val(F(f)) % P % 2
  {
    hide Val, Within;
    var s := new byte[32];
    ToBytes(s, f);
    NumParity(s[..]);
    neg := s[0] % 2;
  }

  lemma NumParity(s: seq<byte>)
    requires s != []
    ensures Num(s) % 2 == (s[0] as int) % 2
  {
  }

  /* ---- fe_frombytes ---- */

  /** a | b << k | c << (k + 8) | d << (k + 16), for an a below the shifts. */
  function Gather(a: int, b: byte, c: byte, d: byte, k: nat): (r: nat)
    requires 2 <= k <= 8 && 0 <= a < Pow2(k)
    ensures r == a + Pow2(k) * (b + 0x100 * (c as int) + 0x1_0000 * (d as int))
  {
    hide Pow2, Splice;
    GatherFits(a, b, c, k);
    var p := Pow2(k);
    GatherSum(a, b, c, d, p);
    var x := Splice(a, b, k, 40);
    assert x == a + b * p;
    var y := Splice(x, c, k + 8, 40);
    assert y == a + b * p + c * (0x100 * p);
    Splice(y, d, k + 16, 40)
  }

  lemma GatherFits(a: int, b: byte, c: byte, k: nat)
    requires 2 <= k <= 8 && 0 <= a < Pow2(k)
    ensures a + b * Pow2(k) < Pow2(k + 8) && Pow2(k + 8) == 0x100 * Pow2(k)
    ensures a + b * Pow2(k) + c * Pow2(k + 8) < Pow2(k + 16) && Pow2(k + 16) == 0x1_0000 * Pow2(k)
    ensures Pow2(40 - k) >= 0x100 && Pow2(40 - (k + 8)) >= 0x100 && Pow2(40 - (k + 16)) >= 0x100
  {
    hide Pow2;
    OctetPowers(k);
    OctetPowers(k + 8);
    BelowNext(a, b, Pow2(k));
    BelowNext(a + b * Pow2(k), c, Pow2(k + 8));
  }

  lemma OctetPowers(k: nat)
    requires k <= 16
    ensures Pow2(k + 8) == 0x100 * Pow2(k) && Pow2(40 - k) >= 0x100 && Pow2(40 - (k + 8)) >= 0x100
  {
    hide Pow2;
    EightBits();
    Pow2Add(8, k);
    Pow2Monotone(8, 40 - k);
    Pow2Monotone(8, 40 - (k + 8));
  }

  lemma EightBits()
    ensures Pow2(8) == 0x100
  {
  }

  lemma BelowNext(a: int, b: byte, p: int)
    requires 0 <= a < p
    ensures 0 <= a + b * p < 0x100 * p
  {
    assert b * p <= 0xff * p;
  }

  lemma GatherSum(a: int, b: byte, c: byte, d: byte, p: int)
    ensures a + b * p + c * (0x100 * p) + d * (0x1_0000 * p) == a + p * (b + 0x100 * (c as int) + 0x1_0000 * (d as int))
  {
    assert p * (b + 0x100 * (c as int) + 0x1_0000 * (d as int)) == p * b + 0x100 * (p * c) + 0x1_0000 * (p * d);
  }

  /** The carries of fe_frombytes, limb 0 to 9 and round to 0. */
  function CarriedUp(h: Fe): Fe {
    var c0 := Carry26(h.l0);
    var c1 := Carry25(h.l1 + c0);
    var c2 := Carry26(h.l2 + c1);
    var c3 := Carry25(h.l3 + c2);
    var c4 := Carry26(h.l4 + c3);
    var c5 := Carry25(h.l5 + c4);
    var c6 := Carry26(h.l6 + c5);
    var c7 := Carry25(h.l7 + c6);
    var c8 := Carry26(h.l8 + c7);
    var c9 := Carry25(h.l9 + c8);
    Fe(h.l0 - 0x400_0000 * c0 + 19 * c9, h.l1 + c0 - 0x200_0000 * c1, h.l2 + c1 - 0x400_0000 * c2,
      h.l3 + c2 - 0x200_0000 * c3, h.l4 + c3 - 0x400_0000 * c4, h.l5 + c4 - 0x200_0000 * c5,
      h.l6 + c5 - 0x400_0000 * c6, h.l7 + c6 - 0x200_0000 * c7, h.l8 + c7 - 0x400_0000 * c8,
      h.l9 + c8 - 0x200_0000 * c9)
  }

  lemma CarriedUpValue(h: Fe)
    ensures Cong(P, Val(h), Val(CarriedUp(h)))
  {
    hide Carry26, Carry25;
    var c0 := Carry26(h.l0);
    var c1 := Carry25(h.l1 + c0);
    var c2 := Carry26(h.l2 + c1);
    var c3 := Carry25(h.l3 + c2);
    var c4 := Carry26(h.l4 + c3);
    var c5 := Carry25(h.l5 + c4);
    var c6 := Carry26(h.l6 + c5);
    var c7 := Carry25(h.l7 + c6);
    var c8 := Carry26(h.l8 + c7);
    var c9 := Carry25(h.l9 + c8);
    CongIntro(P, Val(h), Val(CarriedUp(h)), c9);
  }

  lemma SmallCarry(h: int, c: int)
    requires 0 <= c <= 1
    ensures 0 <= h < 0x400_0000 ==> 0 <= Carry26(h + c) <= 1 && Bounded(h + c - 0x400_0000 * Carry26(h + c), 0x200_0000)
    ensures 0 <= h < 0x200_0000 ==> 0 <= Carry25(h + c) <= 1 && Bounded(h + c - 0x200_0000 * Carry25(h + c), 0x100_0000)
  {
  }

  lemma CarriedUpBound(h: Fe)
    requires Canonical(h)
    ensures Within(CarriedUp(h), 1)
  {
    hide Carry26, Carry25;
    SmallCarry(h.l0, 0);
    var c0 := Carry26(h.l0);
    SmallCarry(h.l1, c0);
    var c1 := Carry25(h.l1 + c0);
    SmallCarry(h.l2, c1);
    var c2 := Carry26(h.l2 + c1);
    SmallCarry(h.l3, c2);
    var c3 := Carry25(h.l3 + c2);
    SmallCarry(h.l4, c3);
    var c4 := Carry26(h.l4 + c3);
    SmallCarry(h.l5, c4);
    var c5 := Carry25(h.l5 + c4);
    SmallCarry(h.l6, c5);
    var c6 := Carry26(h.l6 + c5);
    SmallCarry(h.l7, c6);
    var c7 := Carry25(h.l7 + c6);
    SmallCarry(h.l8, c7);
    var c8 := Carry26(h.l8 + c7);
    SmallCarry(h.l9, c8);
  }

  /** Five limbs cut out of sixteen bytes: the lower half. */
  method GetLow(s: seq<byte>) returns (h0: int, h1: int, h2: int, h3: int, h4: int)
    requires |s| == 16
    ensures 0 <= h0 < 0x400_0000 && 0 <= h1 < 0x200_0000 && 0 <= h2 < 0x400_0000 && 0 <= h3 < 0x200_0000
    ensures 0 <= h4 < 0x400_0000
    ensures Num(s) == LowPart(Fe(h0, h1, h2, h3, h4, 0, 0, 0, 0, 0))
  {
    hide Num, Pow2, Gather, Top, Below;
    BytePowers();
    ByteParts(s[3], 4);
    ByteParts(s[6], 8);
    ByteParts(s[9], 32);
    ByteParts(s[12], 64);
    h0 := Gather(s[0], s[1], s[2], Below(s[3], 4), 8);
    h1 := Gather(Top(s[3], 4), s[4], s[5], Below(s[6], 8), 6);
    h2 := Gather(Top(s[6], 8), s[7], s[8], Below(s[9], 32), 5);
    h3 := Gather(Top(s[9], 32), s[10], s[11], Below(s[12], 64), 3);
    h4 := Gather(Top(s[12], 64), s[13], s[14], s[15], 2);
    SixteenBytes(s[0], s[1], s[2], s[3], s[4], s[5], s[6], s[7], s[8], s[9], s[10], s[11], s[12], s[13], s[14], s[15]);
    assert s == [s[0], s[1], s[2], s[3], s[4], s[5], s[6], s[7], s[8], s[9], s[10], s[11], s[12], s[13], s[14], s[15]];
  }

  /** The upper half, without the top bit. */
  method GetHigh(s: seq<byte>) returns (h5: int, h6: int, h7: int, h8: int, h9: int)
    requires |s| == 16
    ensures 0 <= h5 < 0x200_0000 && 0 <= h6 < 0x400_0000 && 0 <= h7 < 0x200_0000 && 0 <= h8 < 0x400_0000
    ensures 0 <= h9 < 0x200_0000
    ensures Num(s) == Upper(Fe(0, 0, 0, 0, 0, h5, h6, h7, h8, h9)) +
                      0x8000_0000_0000_0000_0000_0000_0000_0000 * Top(s[15], 128)
  {
    hide Num, Pow2, Gather, Top, Below;
    BytePowers();
    ByteParts(s[3], 2);
    ByteParts(s[6], 8);
    ByteParts(s[9], 16);
    ByteParts(s[12], 64);
    ByteParts(s[15], 128);
    h5 := Gather(s[0], s[1], s[2], Below(s[3], 2), 8);
    h6 := Gather(Top(s[3], 2), s[4], s[5], Below(s[6], 8), 7);
    h7 := Gather(Top(s[6], 8), s[7], s[8], Below(s[9], 16), 5);
    h8 := Gather(Top(s[9], 16), s[10], s[11], Below(s[12], 64), 4);
    h9 := Gather(Top(s[12], 64), s[13], s[14], Below(s[15], 128), 2);
    SixteenBytes(s[0], s[1], s[2], s[3], s[4], s[5], s[6], s[7], s[8], s[9], s[10], s[11], s[12], s[13], s[14], s[15]);
    assert s == [s[0], s[1], s[2], s[3], s[4], s[5], s[6], s[7], s[8], s[9], s[10], s[11], s[12], s[13], s[14], s[15]];
  }

  lemma BytePowers()
    ensures Pow2(2) == 4 && Pow2(3) == 8 && Pow2(4) == 16 && Pow2(5) == 32 && Pow2(6) == 64 && Pow2(7) == 128
    ensures Pow2(8) == 0x100
  {
  }

  lemma ByteParts(b: byte, d: int)
    requires d in {2, 4, 8, 16, 32, 64, 128}
    ensures b == Below(b, d) + d * Top(b, d) && 0 <= Below(b, d) < d && 0 <= Top(b, d) && d * Top(b, d) < 0x100
  {
  }

  /** fe_frombytes: the number without its top bit, in small limbs. */
  method FromBytes(h: array<int32>, s: seq<byte>)
    requires h.Length == 10 && |s| == 32
    modifies h
    ensures Within(F(h), 1) && Cong(P, Num(s) % TWO255, Val(F(h)))
  {
    hide Num, Val, Within, Upper, LowPart, CarriedUp, Top;
    var h0, h1, h2, h3, h4 := GetLow(s[..16]);
    var h5, h6, h7, h8, h9 := GetHigh(s[16..]);
    var x := Fe(h0, h1, h2, h3, h4, h5, h6, h7, h8, h9);
    NumHalves(s);
    TwoHalves(x);
    CanonicalRange(x);
    DivUnique(Num(s), TWO255, Top(s[31], 128), Val(x));
    CarriedUpValue(x);
    CarriedUpBound(x);
    var r := CarryUp(x);
    Store(h, r);
  }

  method CarryUp(x: Fe) returns (r: Fe)
    requires Canonical(x)
    ensures r == CarriedUp(x)
  {
    hide Carry26, Carry25;
    var h0, h1, h2, h3, h4, c4 := CarryLower(x);
    var h5, h6, h7, h8, h9, c9 := CarryUpper(x, c4);
    var folded: int64 := 19 * c9;
    h0 := h0 + folded;
    r := Fe(h0, h1, h2, h3, h4, h5, h6, h7, h8, h9);
  }

  /** The carries of the lower limbs. */
  method CarryLower(x: Fe) returns (h0: int64, h1: int64, h2: int64, h3: int64, h4: int64, c4: int64)
    requires Canonical(x)
    ensures var c0 := Carry26(x.l0);
            var c1 := Carry25(x.l1 + c0);
            var c2 := Carry26(x.l2 + c1);
            var c3 := Carry25(x.l3 + c2);
            && c4 == Carry26(x.l4 + c3) && 0 <= c4 <= 1 && h0 == x.l0 - 0x400_0000 * c0
            && h1 == x.l1 + c0 - 0x200_0000 * c1 && h2 == x.l2 + c1 - 0x400_0000 * c2
            && h3 == x.l3 + c2 - 0x200_0000 * c3 && h4 == x.l4 + c3 - 0x400_0000 * c4
            && Bounded(h0, 0x200_0000)
  {
    hide Carry26, Carry25, Bounded;
    h0, h1, h2, h3, h4 := x.l0, x.l1, x.l2, x.l3, x.l4;
    SmallCarry(x.l0, 0);
    var c: int64;
    c, h0 := Round26(h0);
    h1 := h1 + c;
    SmallCarry(x.l1, c);
    c, h1 := Round25(h1);
    h2 := h2 + c;
    SmallCarry(x.l2, c);
    c, h2 := Round26(h2);
    h3 := h3 + c;
    SmallCarry(x.l3, c);
    c, h3 := Round25(h3);
    h4 := h4 + c;
    SmallCarry(x.l4, c);
    c4, h4 := Round26(h4);
  }

  /** The carries of the upper limbs, from the carry out of limb 4 to the one out of limb 9. */
  method CarryUpper(x: Fe, c4: int64) returns (h5: int64, h6: int64, h7: int64, h8: int64, h9: int64, c9: int64)
    requires Canonical(x) && 0 <= c4 <= 1
    ensures var c5 := Carry25(x.l5 + c4);
            var c6 := Carry26(x.l6 + c5);
            var c7 := Carry25(x.l7 + c6);
            var c8 := Carry26(x.l8 + c7);
            && c9 == Carry25(x.l9 + c8) && 0 <= c9 <= 1 && h5 == x.l5 + c4 - 0x200_0000 * c5
            && h6 == x.l6 + c5 - 0x400_0000 * c6 && h7 == x.l7 + c6 - 0x200_0000 * c7
            && h8 == x.l8 + c7 - 0x400_0000 * c8 && h9 == x.l9 + c8 - 0x200_0000 * c9
  {
    hide Carry26, Carry25, Bounded;
    h5, h6, h7, h8, h9 := x.l5 + c4, x.l6, x.l7, x.l8, x.l9;
    SmallCarry(x.l5, c4);
    var c: int64;
    c, h5 := Round25(h5);
    h6 := h6 + c;
    SmallCarry(x.l6, c);
    c, h6 := Round26(h6);
    h7 := h7 + c;
    SmallCarry(x.l7, c);
    c, h7 := Round25(h7);
    h8 := h8 + c;
    SmallCarry(x.l8, c);
    c, h8 := Round26(h8);
    h9 := h9 + c;
    SmallCarry(x.l9, c);
    c9, h9 := Round25(h9);
  }
}
