/** Field elements in place: the fe_ functions over arrays of ten limbs, which may be the same array. */
module FieldOps {
  import opened Bits
  import opened Congruence
  import opened FieldLimbs

  /** The limbs in memory. */
  function F(a: array<int32>): Fe
    requires a.Length == 10
    reads a
  {
    Fe(a[0], a[1], a[2], a[3], a[4], a[5], a[6], a[7], a[8], a[9])
  }

  /* ---- Terms ---- */

  lemma Twice(a: int, b: int)
    ensures (2 * a) * b == 2 * (a * b)
  {
  }

  lemma Times19(a: int, b: int)
    ensures a * (19 * b) == 19 * (a * b)
  {
  }

  lemma Times38(a: int, b: int)
    ensures (2 * a) * (19 * b) == 38 * (a * b) && a * (38 * b) == 38 * (a * b)
  {
  }

  /** One limb times the doubled, 19-fold or 38-fold limbs of another element. */
  lemma Terms(a: int, g: Fe)
    ensures (2 * a) * g.l0 == 2 * (a * g.l0) && a * (19 * g.l0) == 19 * (a * g.l0)
    ensures (2 * a) * (19 * g.l0) == 38 * (a * g.l0)
    ensures (2 * a) * g.l1 == 2 * (a * g.l1) && a * (19 * g.l1) == 19 * (a * g.l1)
    ensures (2 * a) * (19 * g.l1) == 38 * (a * g.l1)
    ensures (2 * a) * g.l2 == 2 * (a * g.l2) && a * (19 * g.l2) == 19 * (a * g.l2)
    ensures (2 * a) * (19 * g.l2) == 38 * (a * g.l2)
    ensures (2 * a) * g.l3 == 2 * (a * g.l3) && a * (19 * g.l3) == 19 * (a * g.l3)
    ensures (2 * a) * (19 * g.l3) == 38 * (a * g.l3)
    ensures (2 * a) * g.l4 == 2 * (a * g.l4) && a * (19 * g.l4) == 19 * (a * g.l4)
    ensures (2 * a) * (19 * g.l4) == 38 * (a * g.l4)
    ensures (2 * a) * g.l5 == 2 * (a * g.l5) && a * (19 * g.l5) == 19 * (a * g.l5)
    ensures (2 * a) * (19 * g.l5) == 38 * (a * g.l5)
    ensures (2 * a) * g.l6 == 2 * (a * g.l6) && a * (19 * g.l6) == 19 * (a * g.l6)
    ensures (2 * a) * (19 * g.l6) == 38 * (a * g.l6)
    ensures (2 * a) * g.l7 == 2 * (a * g.l7) && a * (19 * g.l7) == 19 * (a * g.l7)
    ensures (2 * a) * (19 * g.l7) == 38 * (a * g.l7)
    ensures (2 * a) * g.l8 == 2 * (a * g.l8) && a * (19 * g.l8) == 19 * (a * g.l8)
    ensures (2 * a) * (19 * g.l8) == 38 * (a * g.l8)
    ensures (2 * a) * g.l9 == 2 * (a * g.l9) && a * (19 * g.l9) == 19 * (a * g.l9)
    ensures (2 * a) * (19 * g.l9) == 38 * (a * g.l9)
  {
    Twice(a, g.l0);
    Times19(a, g.l0);
    Times38(a, g.l0);
    Twice(a, g.l1);
    Times19(a, g.l1);
    Times38(a, g.l1);
    Twice(a, g.l2);
    Times19(a, g.l2);
    Times38(a, g.l2);
    Twice(a, g.l3);
    Times19(a, g.l3);
    Times38(a, g.l3);
    Twice(a, g.l4);
    Times19(a, g.l4);
    Times38(a, g.l4);
    Twice(a, g.l5);
    Times19(a, g.l5);
    Times38(a, g.l5);
    Twice(a, g.l6);
    Times19(a, g.l6);
    Times38(a, g.l6);
    Twice(a, g.l7);
    Times19(a, g.l7);
    Times38(a, g.l7);
    Twice(a, g.l8);
    Times19(a, g.l8);
    Times38(a, g.l8);
    Twice(a, g.l9);
    Times19(a, g.l9);
    Times38(a, g.l9);
  }

  /** A sum of five from left to right; neither a term nor a partial sum leaves 64 bits. */
  method Sum5(t0: int64, t1: int64, t2: int64, t3: int64, t4: int64, ghost bound: int) returns (s: int64)
    requires Bounded(t0, bound) && Bounded(t1, bound) && Bounded(t2, bound) && Bounded(t3, bound) && Bounded(t4, bound)
    requires 5 * bound < 0x8000_0000_0000_0000
    ensures s == t0 + t1 + t2 + t3 + t4 && Bounded(s, 5 * bound)
  {
    s := t0 + t1;
    s := s + t2;
    s := s + t3;
    s := s + t4;
  }

  /** One more term. */
  method Plus1(s5: int64, t5: int64, ghost bound: int) returns (s: int64)
    requires Bounded(s5, 5 * bound) && Bounded(t5, bound) && 6 * bound < 0x8000_0000_0000_0000
    ensures s == s5 + t5
  {
    s := s5 + t5;
  }

  /** Five more terms. */
  method Sum10(s5: int64, t5: int64, t6: int64, t7: int64, t8: int64, t9: int64, ghost bound: int) returns (s: int64)
    requires Bounded(s5, 5 * bound) && Bounded(t5, bound) && Bounded(t6, bound) && Bounded(t7, bound)
    requires Bounded(t8, bound) && Bounded(t9, bound) && 10 * bound < 0x8000_0000_0000_0000
    ensures s == s5 + t5 + t6 + t7 + t8 + t9
  {
    s := s5 + t5;
    s := s + t6;
    s := s + t7;
    s := s + t8;
    s := s + t9;
  }

  /** The even columns of fe_mul. */
  method MulEvenColumns(f: Fe, g: Fe) returns (h0: int64, h2: int64, h4: int64, h6: int64, h8: int64)
    requires Within(f, 4) && Within(g, 4)
    ensures var h := Product(f, g); h0 == h.l0 && h2 == h.l2 && h4 == h.l4 && h6 == h.l6 && h8 == h.l8
  {
    LowTerms(f, g);
    HighTerms(f, g);
    Terms(f.l0, g);
    Terms(f.l1, g);
    Terms(f.l2, g);
    Terms(f.l3, g);
    Terms(f.l4, g);
    Terms(f.l5, g);
    Terms(f.l6, g);
    Terms(f.l7, g);
    Terms(f.l8, g);
    Terms(f.l9, g);
    var f0: int32, f1: int32, f2: int32, f3: int32, f4: int32 := f.l0, f.l1, f.l2, f.l3, f.l4;
    var f5: int32, f6: int32, f7: int32, f8: int32, f9: int32 := f.l5, f.l6, f.l7, f.l8, f.l9;
    var g0: int32, g1: int32, g2: int32, g3: int32, g4: int32 := g.l0, g.l1, g.l2, g.l3, g.l4;
    var g5: int32, g6: int32, g7: int32, g8: int32, g9: int32 := g.l5, g.l6, g.l7, g.l8, g.l9;
    var g1x19: int64, g2x19: int64, g3x19: int64 := 19 * g1, 19 * g2, 19 * g3;
    var g4x19: int64, g5x19: int64 := 19 * g4, 19 * g5;
    var g6x19: int64, g7x19: int64, g8x19: int64, g9x19: int64 := 19 * g6, 19 * g7, 19 * g8, 19 * g9;
    var f1x2: int64, f3x2: int64, f5x2: int64, f7x2: int64, f9x2: int64 := 2 * f1, 2 * f3, 2 * f5, 2 * f7, 2 * f9;
    h0 := Sum5(f0 * g0, f1x2 * g9x19, f2 * g8x19, f3x2 * g7x19, f4 * g6x19, TERM_MAX);
    h0 := Sum10(h0, f5x2 * g5x19, f6 * g4x19, f7x2 * g3x19, f8 * g2x19, f9x2 * g1x19, TERM_MAX);
    h2 := Sum5(f0 * g2, f1x2 * g1, f2 * g0, f3x2 * g9x19, f4 * g8x19, TERM_MAX);
    h2 := Sum10(h2, f5x2 * g7x19, f6 * g6x19, f7x2 * g5x19, f8 * g4x19, f9x2 * g3x19, TERM_MAX);
    h4 := Sum5(f0 * g4, f1x2 * g3, f2 * g2, f3x2 * g1, f4 * g0, TERM_MAX);
    h4 := Sum10(h4, f5x2 * g9x19, f6 * g8x19, f7x2 * g7x19, f8 * g6x19, f9x2 * g5x19, TERM_MAX);
    h6 := Sum5(f0 * g6, f1x2 * g5, f2 * g4, f3x2 * g3, f4 * g2, TERM_MAX);
    h6 := Sum10(h6, f5x2 * g1, f6 * g0, f7x2 * g9x19, f8 * g8x19, f9x2 * g7x19, TERM_MAX);
    h8 := Sum5(f0 * g8, f1x2 * g7, f2 * g6, f3x2 * g5, f4 * g4, TERM_MAX);
    h8 := Sum10(h8, f5x2 * g3, f6 * g2, f7x2 * g1, f8 * g0, f9x2 * g9x19, TERM_MAX);
  }

  /** The odd ones, where no limb is doubled. */
  method MulOddColumns(f: Fe, g: Fe) returns (h1: int64, h3: int64, h5: int64, h7: int64, h9: int64)
    requires Within(f, 4) && Within(g, 4)
    ensures var h := Product(f, g); h1 == h.l1 && h3 == h.l3 && h5 == h.l5 && h7 == h.l7 && h9 == h.l9
  {
    LowTerms(f, g);
    HighTerms(f, g);
    Terms(f.l0, g);
    Terms(f.l1, g);
    Terms(f.l2, g);
    Terms(f.l3, g);
    Terms(f.l4, g);
    Terms(f.l5, g);
    Terms(f.l6, g);
    Terms(f.l7, g);
    Terms(f.l8, g);
    Terms(f.l9, g);
    var f0: int32, f1: int32, f2: int32, f3: int32, f4: int32 := f.l0, f.l1, f.l2, f.l3, f.l4;
    var f5: int32, f6: int32, f7: int32, f8: int32, f9: int32 := f.l5, f.l6, f.l7, f.l8, f.l9;
    var g0: int32, g1: int32, g2: int32, g3: int32, g4: int32 := g.l0, g.l1, g.l2, g.l3, g.l4;
    var g5: int32, g6: int32, g7: int32, g8: int32, g9: int32 := g.l5, g.l6, g.l7, g.l8, g.l9;
    var g2x19: int64, g3x19: int64, g4x19: int64 := 19 * g2, 19 * g3, 19 * g4;
    var g5x19: int64, g6x19: int64 := 19 * g5, 19 * g6;
    var g7x19: int64, g8x19: int64, g9x19: int64 := 19 * g7, 19 * g8, 19 * g9;
    h1 := Sum5(f0 * g1, f1 * g0, f2 * g9x19, f3 * g8x19, f4 * g7x19, TERM_MAX);
    h1 := Sum10(h1, f5 * g6x19, f6 * g5x19, f7 * g4x19, f8 * g3x19, f9 * g2x19, TERM_MAX);
    h3 := Sum5(f0 * g3, f1 * g2, f2 * g1, f3 * g0, f4 * g9x19, TERM_MAX);
    h3 := Sum10(h3, f5 * g8x19, f6 * g7x19, f7 * g6x19, f8 * g5x19, f9 * g4x19, TERM_MAX);
    h5 := Sum5(f0 * g5, f1 * g4, f2 * g3, f3 * g2, f4 * g1, TERM_MAX);
    h5 := Sum10(h5, f5 * g0, f6 * g9x19, f7 * g8x19, f8 * g7x19, f9 * g6x19, TERM_MAX);
    h7 := Sum5(f0 * g7, f1 * g6, f2 * g5, f3 * g4, f4 * g3, TERM_MAX);
    h7 := Sum10(h7, f5 * g2, f6 * g1, f7 * g0, f8 * g9x19, f9 * g8x19, TERM_MAX);
    h9 := Sum5(f0 * g9, f1 * g8, f2 * g7, f3 * g6, f4 * g5, TERM_MAX);
    h9 := Sum10(h9, f5 * g4, f6 * g3, f7 * g2, f8 * g1, f9 * g0, TERM_MAX);
  }

  /** The ten columns, none above 2^62. */
  method MulColumns(f: Fe, g: Fe) returns (h: Fe)
    requires Within(f, 4) && Within(g, 4)
    ensures h == Product(f, g) && AllBounded(h, 0x4000_0000_0000_0000)
  {
    hide Product, Within;
    ProductBound(f, g);
    var h0, h2, h4, h6, h8 := MulEvenColumns(f, g);
    var h1, h3, h5, h7, h9 := MulOddColumns(f, g);
    h := Fe(h0, h1, h2, h3, h4, h5, h6, h7, h8, h9);
  }

  /** One limb, doubled or not, times another limb in the forms of fe_sq. */
  lemma SquareTerms(a: int, b: int)
    ensures (2 * a) * b == 2 * (a * b) && (2 * a) * (2 * b) == 4 * (a * b) && (2 * a) * (19 * b) == 38 * (a * b)
    ensures a * (38 * b) == 38 * (a * b) && (2 * a) * (38 * b) == 76 * (a * b) && a * (19 * b) == 19 * (a * b)
  {
  }

  /** The products of two limbs, by the widths of both. */
  lemma EvenEven(a: int, b: int)
    requires Bounded(a, 0x814_0000) && Bounded(b, 0x814_0000)
    ensures Bounded(a * b, PRODUCT_MAX)
  {
    ProductMax(a, b, 0x814_0000, 0x814_0000);
  }

  lemma EvenOdd(a: int, b: int)
    requires Bounded(a, 0x814_0000) && Bounded(b, 0x40a_0000)
    ensures Bounded(a * b, PRODUCT_MAX / 2)
  {
    ProductMax(a, b, 0x814_0000, 0x40a_0000);
  }

  lemma OddOdd(a: int, b: int)
    requires Bounded(a, 0x40a_0000) && Bounded(b, 0x40a_0000)
    ensures Bounded(a * b, PRODUCT_MAX / 4)
  {
    ProductMax(a, b, 0x40a_0000, 0x40a_0000);
  }

  /** The even columns of fe_sq are those of the product of f with itself. */
  method SqEvenColumns(f: Fe) returns (h0: int64, h2: int64, h4: int64, h6: int64, h8: int64)
    requires Within(f, 4)
    ensures var h := Product(f, f); h0 == h.l0 && h2 == h.l2 && h4 == h.l4 && h6 == h.l6 && h8 == h.l8
  {
    EvenEven(f.l0, f.l0);
    EvenEven(f.l2, f.l2);
    EvenEven(f.l4, f.l4);
    SquareTerms(f.l1, f.l9);
    OddOdd(f.l1, f.l9);
    SquareTerms(f.l2, f.l8);
    EvenEven(f.l2, f.l8);
    SquareTerms(f.l3, f.l7);
    OddOdd(f.l3, f.l7);
    SquareTerms(f.l4, f.l6);
    EvenEven(f.l4, f.l6);
    SquareTerms(f.l5, f.l5);
    OddOdd(f.l5, f.l5);
    SquareTerms(f.l0, f.l2);
    EvenEven(f.l0, f.l2);
    SquareTerms(f.l1, f.l1);
    OddOdd(f.l1, f.l1);
    SquareTerms(f.l3, f.l9);
    OddOdd(f.l3, f.l9);
    SquareTerms(f.l4, f.l8);
    EvenEven(f.l4, f.l8);
    SquareTerms(f.l5, f.l7);
    OddOdd(f.l5, f.l7);
    SquareTerms(f.l6, f.l6);
    EvenEven(f.l6, f.l6);
    SquareTerms(f.l0, f.l4);
    EvenEven(f.l0, f.l4);
    SquareTerms(f.l1, f.l3);
    OddOdd(f.l1, f.l3);
    SquareTerms(f.l5, f.l9);
    OddOdd(f.l5, f.l9);
    SquareTerms(f.l6, f.l8);
    EvenEven(f.l6, f.l8);
    SquareTerms(f.l7, f.l7);
    OddOdd(f.l7, f.l7);
    SquareTerms(f.l0, f.l6);
    EvenEven(f.l0, f.l6);
    SquareTerms(f.l1, f.l5);
    OddOdd(f.l1, f.l5);
    SquareTerms(f.l2, f.l4);
    EvenEven(f.l2, f.l4);
    SquareTerms(f.l3, f.l3);
    OddOdd(f.l3, f.l3);
    SquareTerms(f.l7, f.l9);
    OddOdd(f.l7, f.l9);
    SquareTerms(f.l8, f.l8);
    EvenEven(f.l8, f.l8);
    SquareTerms(f.l0, f.l8);
    EvenEven(f.l0, f.l8);
    SquareTerms(f.l1, f.l7);
    OddOdd(f.l1, f.l7);
    SquareTerms(f.l2, f.l6);
    EvenEven(f.l2, f.l6);
    SquareTerms(f.l3, f.l5);
    OddOdd(f.l3, f.l5);
    SquareTerms(f.l9, f.l9);
    OddOdd(f.l9, f.l9);
    var f0: int32, f1: int32, f2: int32, f3: int32, f4: int32 := f.l0, f.l1, f.l2, f.l3, f.l4;
    var f5: int32, f6: int32, f7: int32, f8: int32, f9: int32 := f.l5, f.l6, f.l7, f.l8, f.l9;
    var f0x2: int64, f1x2: int64, f2x2: int64, f3x2: int64, f4x2: int64 := 2 * f0, 2 * f1, 2 * f2, 2 * f3, 2 * f4;
    var f5x2: int64, f5x38: int64, f6x19: int64, f6x2: int64, f7x2: int64 := 2 * f5, 38 * f5, 19 * f6, 2 * f6, 2 * f7;
    var f7x38: int64, f8x19: int64, f9x38: int64 := 38 * f7, 19 * f8, 38 * f9;
    h0 := Sum5(f0 * f0, f1x2 * f9x38, f2x2 * f8x19, f3x2 * f7x38, f4x2 * f6x19, 2 * TERM_MAX);
    h0 := Plus1(h0, f5 * f5x38, 2 * TERM_MAX);
    h2 := Sum5(f0x2 * f2, f1x2 * f1, f3x2 * f9x38, f4x2 * f8x19, f5x2 * f7x38, 2 * TERM_MAX);
    h2 := Plus1(h2, f6 * f6x19, 2 * TERM_MAX);
    h4 := Sum5(f0x2 * f4, f1x2 * f3x2, f2 * f2, f5x2 * f9x38, f6x2 * f8x19, 2 * TERM_MAX);
    h4 := Plus1(h4, f7 * f7x38, 2 * TERM_MAX);
    h6 := Sum5(f0x2 * f6, f1x2 * f5x2, f2x2 * f4, f3x2 * f3, f7x2 * f9x38, 2 * TERM_MAX);
    h6 := Plus1(h6, f8 * f8x19, 2 * TERM_MAX);
    h8 := Sum5(f0x2 * f8, f1x2 * f7x2, f2x2 * f6, f3x2 * f5x2, f4 * f4, 2 * TERM_MAX);
    h8 := Plus1(h8, f9 * f9x38, 2 * TERM_MAX);
  }

  /** And so are the odd ones. */
  method SqOddColumns(f: Fe) returns (h1: int64, h3: int64, h5: int64, h7: int64, h9: int64)
    requires Within(f, 4)
    ensures var h := Product(f, f); h1 == h.l1 && h3 == h.l3 && h5 == h.l5 && h7 == h.l7 && h9 == h.l9
  {
    SquareTerms(f.l0, f.l1);
    EvenOdd(f.l0, f.l1);
    SquareTerms(f.l2, f.l9);
    EvenOdd(f.l2, f.l9);
    SquareTerms(f.l3, f.l8);
    EvenOdd(f.l8, f.l3);
    SquareTerms(f.l4, f.l7);
    EvenOdd(f.l4, f.l7);
    SquareTerms(f.l5, f.l6);
    EvenOdd(f.l6, f.l5);
    SquareTerms(f.l0, f.l3);
    EvenOdd(f.l0, f.l3);
    SquareTerms(f.l1, f.l2);
    EvenOdd(f.l2, f.l1);
    SquareTerms(f.l4, f.l9);
    EvenOdd(f.l4, f.l9);
    SquareTerms(f.l5, f.l8);
    EvenOdd(f.l8, f.l5);
    SquareTerms(f.l6, f.l7);
    EvenOdd(f.l6, f.l7);
    SquareTerms(f.l0, f.l5);
    EvenOdd(f.l0, f.l5);
    SquareTerms(f.l1, f.l4);
    EvenOdd(f.l4, f.l1);
    SquareTerms(f.l2, f.l3);
    EvenOdd(f.l2, f.l3);
    SquareTerms(f.l6, f.l9);
    EvenOdd(f.l6, f.l9);
    SquareTerms(f.l7, f.l8);
    EvenOdd(f.l8, f.l7);
    SquareTerms(f.l0, f.l7);
    EvenOdd(f.l0, f.l7);
    SquareTerms(f.l1, f.l6);
    EvenOdd(f.l6, f.l1);
    SquareTerms(f.l2, f.l5);
    EvenOdd(f.l2, f.l5);
    SquareTerms(f.l3, f.l4);
    EvenOdd(f.l4, f.l3);
    SquareTerms(f.l8, f.l9);
    EvenOdd(f.l8, f.l9);
    SquareTerms(f.l0, f.l9);
    EvenOdd(f.l0, f.l9);
    SquareTerms(f.l1, f.l8);
    EvenOdd(f.l8, f.l1);
    SquareTerms(f.l2, f.l7);
    EvenOdd(f.l2, f.l7);
    SquareTerms(f.l3, f.l6);
    EvenOdd(f.l6, f.l3);
    SquareTerms(f.l4, f.l5);
    EvenOdd(f.l4, f.l5);
    var f0: int32, f1: int32, f2: int32, f3: int32, f4: int32 := f.l0, f.l1, f.l2, f.l3, f.l4;
    var f5: int32, f6: int32, f7: int32, f8: int32, f9: int32 := f.l5, f.l6, f.l7, f.l8, f.l9;
    var f0x2: int64, f1x2: int64, f2x2: int64, f3x2: int64, f4x2: int64 := 2 * f0, 2 * f1, 2 * f2, 2 * f3, 2 * f4;
    var f5x2: int64, f6x19: int64, f7x2: int64, f7x38: int64, f8x19: int64 := 2 * f5, 19 * f6, 2 * f7, 38 * f7, 19 * f8;
    var f9x38: int64 := 38 * f9;
    h1 := Sum5(f0x2 * f1, f2 * f9x38, f3x2 * f8x19, f4 * f7x38, f5x2 * f6x19, 2 * TERM_MAX);
    h3 := Sum5(f0x2 * f3, f1x2 * f2, f4 * f9x38, f5x2 * f8x19, f6 * f7x38, 2 * TERM_MAX);
    h5 := Sum5(f0x2 * f5, f1x2 * f4, f2x2 * f3, f6 * f9x38, f7x2 * f8x19, 2 * TERM_MAX);
    h7 := Sum5(f0x2 * f7, f1x2 * f6, f2x2 * f5, f3x2 * f4, f8 * f9x38, 2 * TERM_MAX);
    h9 := Sum5(f0x2 * f9, f1x2 * f8, f2x2 * f7, f3x2 * f6, f4x2 * f5, 2 * TERM_MAX);
  }

  /** The ten columns of fe_sq. */
  method SqColumns(f: Fe) returns (h: Fe)
    requires Within(f, 4)
    ensures h == Product(f, f) && AllBounded(h, 0x4000_0000_0000_0000)
  {
    hide Product, Within;
    ProductBound(f, f);
    var h0, h2, h4, h6, h8 := SqEvenColumns(f);
    var h1, h3, h5, h7, h9 := SqOddColumns(f);
    h := Fe(h0, h1, h2, h3, h4, h5, h6, h7, h8, h9);
  }

  /** (h + 2^25) >> 26 and what the carry leaves, in 64 bits. */
  method Round26(h: int64) returns (c: int64, rest: int64)
    requires Bounded(h, 0x4000_0040_0000_0000)
    ensures c == Carry26(h) && rest == h - 0x400_0000 * c
    ensures Bounded(c, 0x10_0000_2000) && Bounded(rest, 0x200_0000)
  {
    CarryStep(h);
    var up: int64 := h + 0x200_0000;
    c := up / 0x400_0000;
    var shifted: int64 := 0x400_0000 * c;
    rest := h - shifted;
  }

  /** (h + 2^24) >> 25 and what the carry leaves. */
  method Round25(h: int64) returns (c: int64, rest: int64)
    requires Bounded(h, 0x4000_0040_0000_0000)
    ensures c == Carry25(h) && rest == h - 0x200_0000 * c
    ensures Bounded(c, 0x20_0000_4000) && Bounded(rest, 0x100_0000)
  {
    CarryStep(h);
    var up: int64 := h + 0x100_0000;
    c := up / 0x200_0000;
    var shifted: int64 := 0x200_0000 * c;
    rest := h - shifted;
  }

  /** The carry chain shared by fe_mul and fe_sq; every intermediate value fits 64 bits. */
  method CarryChain(x: Fe) returns (r: Fe)
    requires AllBounded(x, 0x4000_0000_0000_0000)
    ensures r == Carried(x) && Within(r, 1)
  {
    FirstCarriesBound(x);
    LastCarriesBound(FirstCarries(x));
    var y := CarryEight(x);
    r := CarryFour(y);
  }

  method CarryEight(x: Fe) returns (r: Fe)
    requires AllBounded(x, 0x4000_0000_0000_0000)
    ensures r == FirstCarries(x)
  {
    hide Carry26, Carry25;
    var h0: int64, h1: int64, h2: int64, h3: int64, h4: int64 := x.l0, x.l1, x.l2, x.l3, x.l4;
    var h5: int64, h6: int64, h7: int64, h8: int64, h9: int64 := x.l5, x.l6, x.l7, x.l8, x.l9;
    var c0: int64, c4: int64, c1: int64, c5: int64, c2: int64, c6: int64, c3: int64, c7: int64;
    c0, h0 := Round26(h0);
    h1 := h1 + c0;
    c4, h4 := Round26(h4);
    h5 := h5 + c4;
    c1, h1 := Round25(h1);
    h2 := h2 + c1;
    c5, h5 := Round25(h5);
    h6 := h6 + c5;
    c2, h2 := Round26(h2);
    h3 := h3 + c2;
    c6, h6 := Round26(h6);
    h7 := h7 + c6;
    c3, h3 := Round25(h3);
    h4 := h4 + c3;
    c7, h7 := Round25(h7);
    h8 := h8 + c7;
    r := Fe(h0, h1, h2, h3, h4, h5, h6, h7, h8, h9);
  }

  method CarryFour(x: Fe) returns (r: Fe)
    requires HalfCarried(x)
    ensures r == LastCarries(x)
  {
    hide Carry26, Carry25;
    var h0: int64, h1: int64, h2: int64, h3: int64, h4: int64 := x.l0, x.l1, x.l2, x.l3, x.l4;
    var h5: int64, h6: int64, h7: int64, h8: int64, h9: int64 := x.l5, x.l6, x.l7, x.l8, x.l9;
    var c4: int64, c8: int64, c9: int64, c0: int64;
    c4, h4 := Round26(h4);
    h5 := h5 + c4;
    c8, h8 := Round26(h8);
    h9 := h9 + c8;
    c9, h9 := Round25(h9);
    var folded: int64 := 19 * c9;
    h0 := h0 + folded;
    c0, h0 := Round26(h0);
    h1 := h1 + c0;
    r := Fe(h0, h1, h2, h3, h4, h5, h6, h7, h8, h9);
  }

  /* ---- In place ---- */

  method Store(h: array<int32>, x: Fe)
    requires h.Length == 10 && Within(x, 1)
    modifies h
    ensures F(h) == x
  {
    h[0], h[1], h[2], h[3], h[4] := x.l0, x.l1, x.l2, x.l3, x.l4;
    h[5], h[6], h[7], h[8], h[9] := x.l5, x.l6, x.l7, x.l8, x.l9;
  }

  /** fe_mul: the product modulo 2^255 - 19, with small limbs. */
  method Mul(h: array<int32>, f: array<int32>, g: array<int32>)
    requires h.Length == 10 && f.Length == 10 && g.Length == 10 && Within(F(f), 4) && Within(F(g), 4)
    modifies h
    ensures Within(F(h), 1) && Cong(P, old(Val(F(f))) * old(Val(F(g))), Val(F(h)))
  {
    hide Product, Within, Cong, Val, AllBounded, Carried;
    ghost var x, y := F(f), F(g);
    var cols := MulColumns(F(f), F(g));
    ProductValue(x, y);
    CarriedValue(cols);
    CongTrans(P, Val(x) * Val(y), Val(cols), Val(Carried(cols)));
    var r := CarryChain(cols);
    Store(h, r);
  }

  /** fe_sq: the square. */
  method Sq(h: array<int32>, f: array<int32>)
    requires h.Length == 10 && f.Length == 10 && Within(F(f), 4)
    modifies h
    ensures Within(F(h), 1) && Cong(P, old(Val(F(f))) * old(Val(F(f))), Val(F(h)))
  {
    hide Product, Within, Cong, Val, AllBounded, Carried;
    ghost var x := F(f);
    var cols := SqColumns(F(f));
    ProductValue(x, x);
    CarriedValue(cols);
    CongTrans(P, Val(x) * Val(x), Val(cols), Val(Carried(cols)));
    var r := CarryChain(cols);
    Store(h, r);
  }

  /** fe_sq2: twice the square; doubled after the carries, so the limbs are within two. */
  method Sq2(h: array<int32>, f: array<int32>)
    requires h.Length == 10 && f.Length == 10 && Within(F(f), 4)
    modifies h
    ensures Within(F(h), 2) && Cong(P, 2 * (old(Val(F(f))) * old(Val(F(f)))), Val(F(h)))
  {
    hide Val, Upper, Cong, Within, F;
    Sq(h, f);
    ghost var x := F(h);
    CongScale(P, old(Val(F(f))) * old(Val(F(f))), Val(x), 2);
    DoubleLimbs(h);
    assert Val(Plus(x, x)) == 2 * Val(x);
  }

  lemma DoubleWithin(x: Fe)
    requires Within(x, 1)
    ensures Within(Plus(x, x), 2) && AllBounded(x, 0x3fff_ffff)
  {
    hide Val;
  }

  /** Doubles every limb. */
  method DoubleLimbs(h: array<int32>)
    requires h.Length == 10 && Within(F(h), 1)
    modifies h
    ensures F(h) == Plus(old(F(h)), old(F(h))) && Within(F(h), 2)
  {
    hide Val, Plus, Limb, AllBounded, F, Within;
    ghost var x := F(h);
    DoubleWithin(x);
    ghost var twice := Plus(x, x);
    LimbsOf(h);
    for i := 0 to 10
      invariant forall k | 0 <= k < i :: h[k] == Limb(twice, k)
      invariant forall k | i <= k < 10 :: h[k] == Limb(x, k)
    {
      SumFits(x, x, i);
      var v: int32 := h[i] as int * 2;
      h[i] := v;
    }
    LimbsAre(h, twice);
  }

  function Limb(x: Fe, k: nat): int
    requires k < 10
  {
    match k
    case 0 => x.l0
    case 1 => x.l1
    case 2 => x.l2
    case 3 => x.l3
    case 4 => x.l4
    case 5 => x.l5
    case 6 => x.l6
    case 7 => x.l7
    case 8 => x.l8
    case _ => x.l9
  }

  lemma LimbsAre(a: array<int32>, x: Fe)
    requires a.Length == 10 && forall k | 0 <= k < 10 :: a[k] == Limb(x, k)
    ensures F(a) == x
  {
    assert Limb(x, 0) == x.l0 && Limb(x, 1) == x.l1 && Limb(x, 2) == x.l2 && Limb(x, 3) == x.l3 && Limb(x, 4) == x.l4;
    assert Limb(x, 5) == x.l5 && Limb(x, 6) == x.l6 && Limb(x, 7) == x.l7 && Limb(x, 8) == x.l8 && Limb(x, 9) == x.l9;
  }

  lemma LimbsOf(a: array<int32>)
    requires a.Length == 10
    ensures forall k | 0 <= k < 10 :: a[k] == Limb(F(a), k)
  {
  }

  /** fe_add: limb by limb, without carries. */
  method Add(h: array<int32>, f: array<int32>, g: array<int32>)
    requires h.Length == 10 && f.Length == 10 && g.Length == 10
    requires AllBounded(F(f), 0x3fff_ffff) && AllBounded(F(g), 0x3fff_ffff)
    modifies h
    ensures F(h) == Plus(old(F(f)), old(F(g)))
  {
    hide Val, Plus, Limb, AllBounded, F;
    ghost var x, y := F(f), F(g);
    LimbsOf(f);
    LimbsOf(g);
    for i := 0 to 10
      invariant forall k | 0 <= k < i :: h[k] == Limb(Plus(x, y), k)
      invariant forall k | i <= k < 10 :: f[k] == Limb(x, k) && g[k] == Limb(y, k)
    {
      SumFits(x, y, i);
      h[i] := f[i] as int + g[i];
    }
    LimbsAre(h, Plus(x, y));
  }

  lemma SumFits(x: Fe, y: Fe, k: nat)
    requires k < 10 && AllBounded(x, 0x3fff_ffff) && AllBounded(y, 0x3fff_ffff)
    ensures -0x8000_0000 <= Limb(x, k) + Limb(y, k) == Limb(Plus(x, y), k) < 0x8000_0000
    ensures -0x8000_0000 <= Limb(x, k) - Limb(y, k) == Limb(Minus(x, y), k) < 0x8000_0000
  {
    hide Val;
  }

  /** fe_sub. */
  method Sub(h: array<int32>, f: array<int32>, g: array<int32>)
    requires h.Length == 10 && f.Length == 10 && g.Length == 10
    requires AllBounded(F(f), 0x3fff_ffff) && AllBounded(F(g), 0x3fff_ffff)
    modifies h
    ensures F(h) == Minus(old(F(f)), old(F(g)))
  {
    hide Val, Minus, Limb, AllBounded, F;
    ghost var x, y := F(f), F(g);
    LimbsOf(f);
    LimbsOf(g);
    for i := 0 to 10
      invariant forall k | 0 <= k < i :: h[k] == Limb(Minus(x, y), k)
      invariant forall k | i <= k < 10 :: f[k] == Limb(x, k) && g[k] == Limb(y, k)
    {
      SumFits(x, y, i);
      h[i] := f[i] as int - g[i];
    }
    LimbsAre(h, Minus(x, y));
  }

  method Copy(h: array<int32>, f: array<int32>)
    requires h.Length == 10 && f.Length == 10
    modifies h
    ensures F(h) == old(F(f))
  {
    hide Limb, F;
    ghost var x := F(f);
    LimbsOf(f);
    for i := 0 to 10
      invariant forall k | 0 <= k < i :: h[k] == Limb(x, k)
      invariant forall k | i <= k < 10 :: f[k] == Limb(x, k)
    {
      h[i] := f[i];
    }
    LimbsAre(h, x);
  }

  /** fe_cmov: f is taken when the bit is set. */
  method Cmov(h: array<int32>, f: array<int32>, b: bit)
    requires h.Length == 10 && f.Length == 10
    modifies h
    ensures F(h) == if b == 1 then old(F(f)) else old(F(h))
  {
    hide Limb, F;
    ghost var x, y := F(f), F(h);
    ghost var want := if b == 1 then x else y;
    LimbsOf(f);
    LimbsOf(h);
    for i := 0 to 10
      invariant forall k | 0 <= k < i :: h[k] == Limb(want, k)
      invariant forall k | i <= k < 10 :: f[k] == Limb(x, k) && h[k] == Limb(y, k)
    {
      if b == 1 {
        h[i] := f[i];
      }
    }
    LimbsAre(h, want);
  }
}
