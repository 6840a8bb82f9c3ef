/** Arithmetic modulo 2^130 - 5 on five 26-bit limbs (section 2.5 of RFC 8439). */
module PolyField {
  import opened Bits
  import opened Congruence
  import opened LittleEndian

  type uint64 = x: int | 0 <= x < 0x1_0000_0000_0000_0000

  const P: nat := 0x3_ffff_ffff_ffff_ffff_ffff_ffff_ffff_fffb

  /* ---- Limbs ---- */

  /** Five limbs of radix 2^26, least significant first. */
  datatype Limbs = Limbs(l0: int, l1: int, l2: int, l3: int, l4: int)

  function Val(x: Limbs): int {
    x.l0 + 0x400_0000 * (x.l1 + 0x400_0000 * (x.l2 + 0x400_0000 * (x.l3 + 0x400_0000 * x.l4)))
  }

  function Plus(x: Limbs, y: Limbs): (r: Limbs)
    ensures Val(r) == Val(x) + Val(y)
  {
    Limbs(x.l0 + y.l0, x.l1 + y.l1, x.l2 + y.l2, x.l3 + y.l3, x.l4 + y.l4)
  }

  function Scaled(h: int, x: Limbs): (r: Limbs)
    ensures Val(r) == h * Val(x)
  {
    var e3 := x.l3 + 0x400_0000 * x.l4;
    var e2 := x.l2 + 0x400_0000 * e3;
    var e1 := x.l1 + 0x400_0000 * e2;
    Scale(h, x.l3, x.l4);
    Scale(h, x.l2, e3);
    Scale(h, x.l1, e2);
    Scale(h, x.l0, e1);
    Limbs(h * x.l0, h * x.l1, h * x.l2, h * x.l3, h * x.l4)
  }

  lemma Scale(h: int, a: int, b: int)
    ensures h * (a + 0x400_0000 * b) == h * a + 0x400_0000 * (h * b)
  {
  }

  /** Columns of the schoolbook product; columns 5 to 8 come back five times, as 2^130 is 5. */
  function Product(h: Limbs, r: Limbs): Limbs {
    Limbs(h.l0 * r.l0 + h.l1 * (5 * r.l4) + h.l2 * (5 * r.l3) + h.l3 * (5 * r.l2) + h.l4 * (5 * r.l1),
      h.l0 * r.l1 + h.l1 * r.l0 + h.l2 * (5 * r.l4) + h.l3 * (5 * r.l3) + h.l4 * (5 * r.l2),
      h.l0 * r.l2 + h.l1 * r.l1 + h.l2 * r.l0 + h.l3 * (5 * r.l4) + h.l4 * (5 * r.l3),
      h.l0 * r.l3 + h.l1 * r.l2 + h.l2 * r.l1 + h.l3 * r.l0 + h.l4 * (5 * r.l4),
      h.l0 * r.l4 + h.l1 * r.l3 + h.l2 * r.l2 + h.l3 * r.l1 + h.l4 * r.l0)
  }

  lemma FiveTimes(h: int, r: int)
    ensures h * (5 * r) == 5 * (h * r)
  {
  }

  /** The columns stand for the product of the values. */
  lemma ProductValue(h: Limbs, r: Limbs)
    ensures Cong(P, Val(h) * Val(r), Val(Product(h, r)))
  {
    hide Cong;
    var x0, x1, x2, x3, x4 :=
      Scaled(h.l0, r), Scaled(h.l1, r), Scaled(h.l2, r), Scaled(h.l3, r), Scaled(h.l4, r);
    ColumnValue(h, Val(r));
    FiveTimes(h.l1, r.l4);
    FiveTimes(h.l2, r.l3);
    FiveTimes(h.l3, r.l2);
    FiveTimes(h.l4, r.l1);
    FiveTimes(h.l2, r.l4);
    FiveTimes(h.l3, r.l3);
    FiveTimes(h.l4, r.l2);
    FiveTimes(h.l3, r.l4);
    FiveTimes(h.l4, r.l3);
    FiveTimes(h.l4, r.l4);
    var d := Folded(x0, x1, x2, x3, x4);
    assert d == Product(h, r);
    FoldValue(x0, x1, x2, x3, x4);
  }

  lemma ColumnValue(h: Limbs, r: int)
    ensures Val(h) * r == Val(Limbs(h.l0 * r, h.l1 * r, h.l2 * r, h.l3 * r, h.l4 * r))
  {
    var _ := Scaled(r, h);
  }

  /** Five rows of products, row i shifted by i limbs. */
  function Folded(x0: Limbs, x1: Limbs, x2: Limbs, x3: Limbs, x4: Limbs): Limbs {
    Limbs(x0.l0 + 5 * x1.l4 + 5 * x2.l3 + 5 * x3.l2 + 5 * x4.l1,
      x0.l1 + x1.l0 + 5 * x2.l4 + 5 * x3.l3 + 5 * x4.l2,
      x0.l2 + x1.l1 + x2.l0 + 5 * x3.l4 + 5 * x4.l3,
      x0.l3 + x1.l2 + x2.l1 + x3.l0 + 5 * x4.l4,
      x0.l4 + x1.l3 + x2.l2 + x3.l1 + x4.l0)
  }

  lemma FoldValue(x0: Limbs, x1: Limbs, x2: Limbs, x3: Limbs, x4: Limbs)
    ensures Cong(P, Val(Limbs(Val(x0), Val(x1), Val(x2), Val(x3), Val(x4))), Val(Folded(x0, x1, x2, x3, x4)))
  {
    var over := Limbs(x1.l4 + x2.l3 + x3.l2 + x4.l1, x2.l4 + x3.l3 + x4.l2, x3.l4 + x4.l3, x4.l4, 0);
    CongIntro(P, Val(Limbs(Val(x0), Val(x1), Val(x2), Val(x3), Val(x4))), Val(Folded(x0, x1, x2, x3, x4)), Val(over));
  }

  /* ---- Carries ---- */

  ghost predicate Nonneg(x: Limbs) {
    x.l0 >= 0 && x.l1 >= 0 && x.l2 >= 0 && x.l3 >= 0 && x.l4 >= 0
  }

  /** The carry out of a limb. */
  function Over(x: int): int {
    x / 0x400_0000
  }

  /** What it leaves. */
  function Low(x: int): int {
    x % 0x400_0000
  }

  /** The carry chain after a product: limbs 0 to 4, then 0 again into 1. */
  function Carried(d: Limbs): Limbs {
    var d1 := d.l1 + Over(d.l0);
    var d2 := d.l2 + Over(d1);
    var d3 := d.l3 + Over(d2);
    var d4 := d.l4 + Over(d3);
    var d0 := Low(d.l0) + 5 * Over(d4);
    Limbs(Low(d0), Low(d1) + Over(d0), Low(d2), Low(d3), Low(d4))
  }

  lemma CarriedValue(d: Limbs)
    ensures Cong(P, Val(d), Val(Carried(d)))
  {
    var d1 := d.l1 + d.l0 / 0x400_0000;
    var d2 := d.l2 + d1 / 0x400_0000;
    var d3 := d.l3 + d2 / 0x400_0000;
    var d4 := d.l4 + d3 / 0x400_0000;
    CongIntro(P, Val(d), Val(Carried(d)), d4 / 0x400_0000);
  }

  /** Between blocks: all limbs but the second are below 2^26, and it is hardly above. */
  predicate Loose(h: Limbs) {
    && 0 <= h.l0 < 0x400_0000 && 0 <= h.l1 < 0x400_0400 && 0 <= h.l2 < 0x400_0000
    && 0 <= h.l3 < 0x400_0000 && 0 <= h.l4 < 0x400_0000
  }

  /** Every limb is below 2^26. */
  predicate Tight(h: Limbs) {
    && 0 <= h.l0 < 0x400_0000 && 0 <= h.l1 < 0x400_0000 && 0 <= h.l2 < 0x400_0000
    && 0 <= h.l3 < 0x400_0000 && 0 <= h.l4 < 0x400_0000
  }

  const COLUMN_MAX: nat := 0x400_0000_0000_0000

  lemma TermBound(h: int, r: int)
    requires 0 <= h < 0x800_0400 && 0 <= r < 0x1400_0000
    ensures 0 <= h * r <= 0xa0_0500_0000_0000
  {
    TermMono(h, r, 0x800_0400, 0x1400_0000);
  }

  lemma TermMono(h: int, r: int, hMax: int, rMax: int)
    requires 0 <= h <= hMax && 0 <= r <= rMax
    ensures 0 <= h * r <= hMax * rMax
  {
    assert h * r <= h * rMax <= hMax * rMax;
  }

  predicate Columns(d: Limbs) {
    && 0 <= d.l0 < COLUMN_MAX && 0 <= d.l1 < COLUMN_MAX && 0 <= d.l2 < COLUMN_MAX
    && 0 <= d.l3 < COLUMN_MAX && 0 <= d.l4 < COLUMN_MAX
  }

  /** The sum of a loose and a tight value times a tight one stays below 2^58 in each column. */
  lemma ProductBound(h: Limbs, m: Limbs, r: Limbs)
    requires Loose(h) && Tight(m) && Tight(r)
    ensures Columns(Product(Plus(h, m), r))
  {
    var x := Plus(h, m);
    RowBound(x.l0, r);
    RowBound(x.l1, r);
    RowBound(x.l2, r);
    RowBound(x.l3, r);
    RowBound(x.l4, r);
  }

  lemma RowBound(h: int, r: Limbs)
    requires 0 <= h < 0x800_0400 && Tight(r)
    ensures 0 <= h * r.l0 <= 0xa0_0500_0000_0000 && 0 <= h * r.l1 <= 0xa0_0500_0000_0000
    ensures 0 <= h * r.l2 <= 0xa0_0500_0000_0000 && 0 <= h * r.l3 <= 0xa0_0500_0000_0000
    ensures 0 <= h * r.l4 <= 0xa0_0500_0000_0000
    ensures 0 <= h * (5 * r.l1) <= 0xa0_0500_0000_0000 && 0 <= h * (5 * r.l2) <= 0xa0_0500_0000_0000
    ensures 0 <= h * (5 * r.l3) <= 0xa0_0500_0000_0000 && 0 <= h * (5 * r.l4) <= 0xa0_0500_0000_0000
  {
    TermBound(h, r.l0);
    TermBound(h, r.l1);
    TermBound(h, r.l2);
    TermBound(h, r.l3);
    TermBound(h, r.l4);
    TermBound(h, 5 * r.l1);
    TermBound(h, 5 * r.l2);
    TermBound(h, 5 * r.l3);
    TermBound(h, 5 * r.l4);
  }

  lemma CarriedLoose(d: Limbs)
    requires Columns(d)
    ensures Loose(Carried(d))
  {
  }

  /* ---- Final reduction ---- */

  /** The carry chain of poly1305_final: limb 1 upwards, then 0 into 1. */
  function Settled(h: Limbs): Limbs {
    var h2 := h.l2 + Over(h.l1);
    var h3 := h.l3 + Over(h2);
    var h4 := h.l4 + Over(h3);
    var h0 := h.l0 + 5 * Over(h4);
    Limbs(Low(h0), Low(h.l1) + Over(h0), Low(h2), Low(h3), Low(h4))
  }

  /** A carry out of the top can only come from a wrapped limb 1, which then has room. */
  lemma SettledTight(h: Limbs)
    requires Loose(h)
    ensures Tight(Settled(h))
  {
    var h2 := h.l2 + h.l1 / 0x400_0000;
    var h3 := h.l3 + h2 / 0x400_0000;
    var h4 := h.l4 + h3 / 0x400_0000;
    OneCarry(h.l1, 0);
    OneCarry(h.l2, h.l1 / 0x400_0000);
    OneCarry(h.l3, h2 / 0x400_0000);
    OneCarry(h.l4, h3 / 0x400_0000);
    OneCarry(h.l0, 5 * (h4 / 0x400_0000));
  }

  /** A limb with a small carry in carries out at most one, and then is small. */
  lemma OneCarry(l: int, c: int)
    requires 0 <= l < 0x400_0400 && 0 <= c <= 5
    ensures var x := l + c; var q := x / 0x400_0000;
            && 0 <= q <= 1 && 0 <= x % 0x400_0000 < 0x400_0000 && x == 0x400_0000 * q + x % 0x400_0000
            && (q == 1 ==> x % 0x400_0000 < 0x410)
            && (l < 0x400_0000 && c == 0 ==> q == 0)
  {
  }

  lemma SettledValue(h: Limbs)
    ensures Cong(P, Val(h), Val(Settled(h)))
  {
    var h2 := h.l2 + h.l1 / 0x400_0000;
    var h3 := h.l3 + h2 / 0x400_0000;
    var h4 := h.l4 + h3 / 0x400_0000;
    CongIntro(P, Val(h), Val(Settled(h)), h4 / 0x400_0000);
  }

  /** h + 5 with carries, the top limb left as it is. */
  function PlusFive(h: Limbs): Limbs {
    var g0 := h.l0 + 5;
    var g1 := h.l1 + g0 / 0x400_0000;
    var g2 := h.l2 + g1 / 0x400_0000;
    var g3 := h.l3 + g2 / 0x400_0000;
    Limbs(g0 % 0x400_0000, g1 % 0x400_0000, g2 % 0x400_0000, g3 % 0x400_0000, h.l4 + g3 / 0x400_0000)
  }

  lemma PlusFiveValue(h: Limbs)
    requires Tight(h)
    ensures var g := PlusFive(h);
            && Val(g) == Val(h) + 5 && 0 <= g.l4 <= 0x400_0000 && Tight(g.(l4 := 0))
  {
  }

  lemma TightRange(h: Limbs)
    requires 0 <= h.l4 && Tight(h.(l4 := 0))
    ensures h.l4 * 0x100_0000_0000_0000_0000_0000_0000 <= Val(h) < (h.l4 + 1) * 0x100_0000_0000_0000_0000_0000_0000
  {
  }

  /** The selected limbs: h + 5 less the bit of weight 2^130 if that bit is set, or h. */
  function Frozen(h: Limbs): Limbs {
    var g := PlusFive(h);
    if (g.l4 / 0x400_0000) % 2 == 1 then g else h
  }

  /** The low 128 bits of the selected limbs are those of the value modulo 2^130 - 5. */
  lemma FrozenValue(h: Limbs)
    requires Tight(h)
    ensures var f := Frozen(h);
            && Tight(f.(l4 := 0)) && 0 <= f.l4 <= 0x400_0000
            && (Val(f) == Val(h) % P || Val(f) == Val(h) % P + 0x4_0000_0000_0000_0000_0000_0000_0000_0000)
  {
    hide Val, PlusFive;
    PlusFiveValue(h);
    var g := PlusFive(h);
    TightRange(g);
    TightRange(h);
    if g.l4 == 0x400_0000 {
      DivUnique(Val(h), P, 1, Val(h) - P);
    } else {
      DivUnique(Val(h), P, 0, Val(h));
    }
  }

  /* ---- Words ---- */

  /** A 16-byte block cut into limbs, with hibit as bit 128. */
  function Cut(u0: uint32, u1: uint32, u2: uint32, u3: uint32, hibit: bit): Limbs {
    Limbs(u0 % 0x400_0000, u0 / 0x400_0000 + 0x40 * (u1 % 0x10_0000), u1 / 0x10_0000 + 0x1000 * (u2 % 0x4000),
      u2 / 0x4000 + 0x4_0000 * (u3 % 0x100), u3 / 0x100 + 0x100_0000 * hibit)
  }

  lemma CutValue(u0: uint32, u1: uint32, u2: uint32, u3: uint32, hibit: bit)
    ensures Tight(Cut(u0, u1, u2, u3, hibit))
    ensures Val(Cut(u0, u1, u2, u3, hibit)) ==
            Words(u0, u1, u2, u3) + 0x1_0000_0000_0000_0000_0000_0000_0000_0000 * hibit
  {
  }

  /** Words 0 to 3 from limbs, bits 128 and up dropped. */
  function Word0(f: Limbs): int { f.l0 + 0x400_0000 * (f.l1 % 0x40) }

  function Word1(f: Limbs): int { f.l1 / 0x40 + 0x10_0000 * (f.l2 % 0x1000) }

  function Word2(f: Limbs): int { f.l2 / 0x1000 + 0x4000 * (f.l3 % 0x4_0000) }

  function Word3(f: Limbs): int { f.l3 / 0x4_0000 + 0x100 * (f.l4 % 0x100_0000) }

  lemma WordsValue(f: Limbs)
    requires Tight(f.(l4 := 0)) && 0 <= f.l4 <= 0x400_0000
    ensures 0 <= Word0(f) < 0x1_0000_0000 && 0 <= Word1(f) < 0x1_0000_0000
    ensures 0 <= Word2(f) < 0x1_0000_0000 && 0 <= Word3(f) < 0x1_0000_0000
    ensures Val(f) == Words(Word0(f), Word1(f), Word2(f), Word3(f)) +
                      0x1_0000_0000_0000_0000_0000_0000_0000_0000 * (f.l4 / 0x100_0000)
  {
  }
}
