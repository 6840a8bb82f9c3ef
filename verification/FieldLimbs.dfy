/** Arithmetic modulo 2^255 - 19 on ten signed limbs of 26 and 25 bits (RFC 7748, RFC 8032). */
module FieldLimbs {
  import opened Congruence

  const P: int := 0x7fff_ffff_ffff_ffff_ffff_ffff_ffff_ffff_ffff_ffff_ffff_ffff_ffff_ffff_ffff_ffed

  /** Ten limbs of weights 2^0, 2^26, 2^51, 2^77, 2^102, 2^128, 2^153, 2^179, 2^204 and 2^230. */
  datatype Fe = Fe(l0: int, l1: int, l2: int, l3: int, l4: int, l5: int, l6: int, l7: int, l8: int, l9: int)

  /* Weights of the upper limbs. */

  const W1: int := 0x400_0000

  const W2: int := 0x8_0000_0000_0000

  const W3: int := 0x2000_0000_0000_0000_0000

  const W4: int := 0x40_0000_0000_0000_0000_0000_0000

  const W5: int := 0x1_0000_0000_0000_0000_0000_0000_0000_0000

  const W6: int := 0x200_0000_0000_0000_0000_0000_0000_0000_0000_0000

  const W7: int := 0x8_0000_0000_0000_0000_0000_0000_0000_0000_0000_0000_0000

  const W8: int := 0x1000_0000_0000_0000_0000_0000_0000_0000_0000_0000_0000_0000_0000

  const W9: int := 0x40_0000_0000_0000_0000_0000_0000_0000_0000_0000_0000_0000_0000_0000_0000

  function Val(x: Fe): int {
    x.l0 + 0x400_0000 * (x.l1 + 0x200_0000 * (x.l2 + 0x400_0000 * (x.l3 + 0x200_0000 * (x.l4 + 0x400_0000 * Upper(x)))))
  }

  function Upper(x: Fe): int {
    x.l5 + 0x200_0000 * (x.l6 + 0x400_0000 * (x.l7 + 0x200_0000 * (x.l8 + 0x400_0000 * x.l9)))
  }

  function Plus(x: Fe, y: Fe): (r: Fe)
    ensures Val(r) == Val(x) + Val(y)
  {
    Fe(x.l0 + y.l0, x.l1 + y.l1, x.l2 + y.l2, x.l3 + y.l3, x.l4 + y.l4, x.l5 + y.l5, x.l6 + y.l6, x.l7 + y.l7,
      x.l8 + y.l8, x.l9 + y.l9)
  }

  function Minus(x: Fe, y: Fe): (r: Fe)
    ensures Val(r) == Val(x) - Val(y)
  {
    Fe(x.l0 - y.l0, x.l1 - y.l1, x.l2 - y.l2, x.l3 - y.l3, x.l4 - y.l4, x.l5 - y.l5, x.l6 - y.l6, x.l7 - y.l7,
      x.l8 - y.l8, x.l9 - y.l9)
  }

  function Scaled(h: int, x: Fe): Fe {
    Fe(h * x.l0, h * x.l1, h * x.l2, h * x.l3, h * x.l4, h * x.l5, h * x.l6, h * x.l7, h * x.l8, h * x.l9)
  }

  lemma ScaledValue(h: int, x: Fe)
    ensures Val(Scaled(h, x)) == h * Val(x)
  {
    var e8 := x.l8 + 0x400_0000 * x.l9;
    var e7 := x.l7 + 0x200_0000 * e8;
    var e6 := x.l6 + 0x400_0000 * e7;
    var e5 := x.l5 + 0x200_0000 * e6;
    var e4 := x.l4 + 0x400_0000 * e5;
    var e3 := x.l3 + 0x200_0000 * e4;
    var e2 := x.l2 + 0x400_0000 * e3;
    var e1 := x.l1 + 0x200_0000 * e2;
    Scale26(h, x.l8, x.l9);
    Scale25(h, x.l7, e8);
    Scale26(h, x.l6, e7);
    Scale25(h, x.l5, e6);
    Scale26(h, x.l4, e5);
    Scale25(h, x.l3, e4);
    Scale26(h, x.l2, e3);
    Scale25(h, x.l1, e2);
    Scale26(h, x.l0, e1);
  }

  lemma Scale26(h: int, a: int, b: int)
    ensures h * (a + 0x400_0000 * b) == h * a + 0x400_0000 * (h * b)
  {
  }

  lemma Scale25(h: int, a: int, b: int)
    ensures h * (a + 0x200_0000 * b) == h * a + 0x200_0000 * (h * b)
  {
  }

  /* ---- Multiplying by the weight of one limb: limbs past the top come back 19 times ---- */

  function Turn1(x: Fe): Fe {
    Fe(38 * x.l9, x.l0, 2 * x.l1, x.l2, 2 * x.l3, x.l4, 2 * x.l5, x.l6, 2 * x.l7, x.l8)
  }

  lemma Turn1Value(x: Fe)
    ensures Cong(P, W1 * Val(x), Val(Turn1(x)))
  {
    CongIntro(P, W1 * Val(x), Val(Turn1(x)),
      Val(Fe(2 * x.l9, 0, 0, 0, 0, 0, 0, 0, 0, 0)));
  }

  function Turn2(x: Fe): Fe {
    Fe(19 * x.l8, 19 * x.l9, x.l0, x.l1, x.l2, x.l3, x.l4, x.l5, x.l6, x.l7)
  }

  lemma Turn2Value(x: Fe)
    ensures Cong(P, W2 * Val(x), Val(Turn2(x)))
  {
    CongIntro(P, W2 * Val(x), Val(Turn2(x)),
      Val(Fe(x.l8, x.l9, 0, 0, 0, 0, 0, 0, 0, 0)));
  }

  function Turn3(x: Fe): Fe {
    Fe(38 * x.l7, 19 * x.l8, 38 * x.l9, x.l0, 2 * x.l1, x.l2, 2 * x.l3, x.l4, 2 * x.l5, x.l6)
  }

  lemma Turn3Value(x: Fe)
    ensures Cong(P, W3 * Val(x), Val(Turn3(x)))
  {
    CongIntro(P, W3 * Val(x), Val(Turn3(x)),
      Val(Fe(2 * x.l7, x.l8, 2 * x.l9, 0, 0, 0, 0, 0, 0, 0)));
  }

  function Turn4(x: Fe): Fe {
    Fe(19 * x.l6, 19 * x.l7, 19 * x.l8, 19 * x.l9, x.l0, x.l1, x.l2, x.l3, x.l4, x.l5)
  }

  lemma Turn4Value(x: Fe)
    ensures Cong(P, W4 * Val(x), Val(Turn4(x)))
  {
    CongIntro(P, W4 * Val(x), Val(Turn4(x)),
      Val(Fe(x.l6, x.l7, x.l8, x.l9, 0, 0, 0, 0, 0, 0)));
  }

  function Turn5(x: Fe): Fe {
    Fe(38 * x.l5, 19 * x.l6, 38 * x.l7, 19 * x.l8, 38 * x.l9, x.l0, 2 * x.l1, x.l2, 2 * x.l3, x.l4)
  }

  lemma Turn5Value(x: Fe)
    ensures Cong(P, W5 * Val(x), Val(Turn5(x)))
  {
    CongIntro(P, W5 * Val(x), Val(Turn5(x)),
      Val(Fe(2 * x.l5, x.l6, 2 * x.l7, x.l8, 2 * x.l9, 0, 0, 0, 0, 0)));
  }

  function Turn6(x: Fe): Fe {
    Fe(19 * x.l4, 19 * x.l5, 19 * x.l6, 19 * x.l7, 19 * x.l8, 19 * x.l9, x.l0, x.l1, x.l2, x.l3)
  }

  lemma Turn6Value(x: Fe)
    ensures Cong(P, W6 * Val(x), Val(Turn6(x)))
  {
    CongIntro(P, W6 * Val(x), Val(Turn6(x)),
      Val(Fe(x.l4, x.l5, x.l6, x.l7, x.l8, x.l9, 0, 0, 0, 0)));
  }

  function Turn7(x: Fe): Fe {
    Fe(38 * x.l3, 19 * x.l4, 38 * x.l5, 19 * x.l6, 38 * x.l7, 19 * x.l8, 38 * x.l9, x.l0, 2 * x.l1, x.l2)
  }

  lemma Turn7Value(x: Fe)
    ensures Cong(P, W7 * Val(x), Val(Turn7(x)))
  {
    CongIntro(P, W7 * Val(x), Val(Turn7(x)),
      Val(Fe(2 * x.l3, x.l4, 2 * x.l5, x.l6, 2 * x.l7, x.l8, 2 * x.l9, 0, 0, 0)));
  }

  function Turn8(x: Fe): Fe {
    Fe(19 * x.l2, 19 * x.l3, 19 * x.l4, 19 * x.l5, 19 * x.l6, 19 * x.l7, 19 * x.l8, 19 * x.l9, x.l0, x.l1)
  }

  lemma Turn8Value(x: Fe)
    ensures Cong(P, W8 * Val(x), Val(Turn8(x)))
  {
    CongIntro(P, W8 * Val(x), Val(Turn8(x)),
      Val(Fe(x.l2, x.l3, x.l4, x.l5, x.l6, x.l7, x.l8, x.l9, 0, 0)));
  }

  function Turn9(x: Fe): Fe {
    Fe(38 * x.l1, 19 * x.l2, 38 * x.l3, 19 * x.l4, 38 * x.l5, 19 * x.l6, 38 * x.l7, 19 * x.l8, 38 * x.l9, x.l0)
  }

  lemma Turn9Value(x: Fe)
    ensures Cong(P, W9 * Val(x), Val(Turn9(x)))
  {
    CongIntro(P, W9 * Val(x), Val(Turn9(x)),
      Val(Fe(2 * x.l1, x.l2, 2 * x.l3, x.l4, 2 * x.l5, x.l6, 2 * x.l7, x.l8, 2 * x.l9, 0)));
  }

  /** Columns of the schoolbook product; two 25-bit limbs meet at half weight, and 2^255 is 19. */
  function Product(f: Fe, g: Fe): Fe {
    Fe(
      f.l0 * g.l0 + 38 * (f.l1 * g.l9) + 19 * (f.l2 * g.l8) + 38 * (f.l3 * g.l7) + 19 * (f.l4 * g.l6) +
        38 * (f.l5 * g.l5) + 19 * (f.l6 * g.l4) + 38 * (f.l7 * g.l3) + 19 * (f.l8 * g.l2) + 38 * (f.l9 * g.l1),
      f.l0 * g.l1 + f.l1 * g.l0 + 19 * (f.l2 * g.l9) + 19 * (f.l3 * g.l8) + 19 * (f.l4 * g.l7) +
        19 * (f.l5 * g.l6) + 19 * (f.l6 * g.l5) + 19 * (f.l7 * g.l4) + 19 * (f.l8 * g.l3) + 19 * (f.l9 * g.l2),
      f.l0 * g.l2 + 2 * (f.l1 * g.l1) + f.l2 * g.l0 + 38 * (f.l3 * g.l9) + 19 * (f.l4 * g.l8) +
        38 * (f.l5 * g.l7) + 19 * (f.l6 * g.l6) + 38 * (f.l7 * g.l5) + 19 * (f.l8 * g.l4) + 38 * (f.l9 * g.l3),
      f.l0 * g.l3 + f.l1 * g.l2 + f.l2 * g.l1 + f.l3 * g.l0 + 19 * (f.l4 * g.l9) +
        19 * (f.l5 * g.l8) + 19 * (f.l6 * g.l7) + 19 * (f.l7 * g.l6) + 19 * (f.l8 * g.l5) + 19 * (f.l9 * g.l4),
      f.l0 * g.l4 + 2 * (f.l1 * g.l3) + f.l2 * g.l2 + 2 * (f.l3 * g.l1) + f.l4 * g.l0 +
        38 * (f.l5 * g.l9) + 19 * (f.l6 * g.l8) + 38 * (f.l7 * g.l7) + 19 * (f.l8 * g.l6) + 38 * (f.l9 * g.l5),
      f.l0 * g.l5 + f.l1 * g.l4 + f.l2 * g.l3 + f.l3 * g.l2 + f.l4 * g.l1 +
        f.l5 * g.l0 + 19 * (f.l6 * g.l9) + 19 * (f.l7 * g.l8) + 19 * (f.l8 * g.l7) + 19 * (f.l9 * g.l6),
      f.l0 * g.l6 + 2 * (f.l1 * g.l5) + f.l2 * g.l4 + 2 * (f.l3 * g.l3) + f.l4 * g.l2 +
        2 * (f.l5 * g.l1) + f.l6 * g.l0 + 38 * (f.l7 * g.l9) + 19 * (f.l8 * g.l8) + 38 * (f.l9 * g.l7),
      f.l0 * g.l7 + f.l1 * g.l6 + f.l2 * g.l5 + f.l3 * g.l4 + f.l4 * g.l3 +
        f.l5 * g.l2 + f.l6 * g.l1 + f.l7 * g.l0 + 19 * (f.l8 * g.l9) + 19 * (f.l9 * g.l8),
      f.l0 * g.l8 + 2 * (f.l1 * g.l7) + f.l2 * g.l6 + 2 * (f.l3 * g.l5) + f.l4 * g.l4 +
        2 * (f.l5 * g.l3) + f.l6 * g.l2 + 2 * (f.l7 * g.l1) + f.l8 * g.l0 + 38 * (f.l9 * g.l9),
      f.l0 * g.l9 + f.l1 * g.l8 + f.l2 * g.l7 + f.l3 * g.l6 + f.l4 * g.l5 +
        f.l5 * g.l4 + f.l6 * g.l3 + f.l7 * g.l2 + f.l8 * g.l1 + f.l9 * g.l0)
  }

  lemma Column0(f: Fe, g: Fe)
    ensures Rows(f, g).l0 == Product(f, g).l0
  {
  }

  lemma Column1(f: Fe, g: Fe)
    ensures Rows(f, g).l1 == Product(f, g).l1
  {
  }

  lemma Column2(f: Fe, g: Fe)
    ensures Rows(f, g).l2 == Product(f, g).l2
  {
  }

  lemma Column3(f: Fe, g: Fe)
    ensures Rows(f, g).l3 == Product(f, g).l3
  {
  }

  lemma Column4(f: Fe, g: Fe)
    ensures Rows(f, g).l4 == Product(f, g).l4
  {
  }

  lemma Column5(f: Fe, g: Fe)
    ensures Rows(f, g).l5 == Product(f, g).l5
  {
  }

  lemma Column6(f: Fe, g: Fe)
    ensures Rows(f, g).l6 == Product(f, g).l6
  {
  }

  lemma Column7(f: Fe, g: Fe)
    ensures Rows(f, g).l7 == Product(f, g).l7
  {
  }

  lemma Column8(f: Fe, g: Fe)
    ensures Rows(f, g).l8 == Product(f, g).l8
  {
  }

  lemma Column9(f: Fe, g: Fe)
    ensures Rows(f, g).l9 == Product(f, g).l9
  {
  }

  /** The same sums, row by row. */
  function Rows(f: Fe, g: Fe): Fe {
    Plus(LowRows(f, g), HighRows(f, g))
  }

  lemma RowsAreColumns(f: Fe, g: Fe)
    ensures Rows(f, g) == Product(f, g)
  {
    hide Rows, Product;
    Column0(f, g);
    Column1(f, g);
    Column2(f, g);
    Column3(f, g);
    Column4(f, g);
    Column5(f, g);
    Column6(f, g);
    Column7(f, g);
    Column8(f, g);
    Column9(f, g);
  }

  function LowRows(f: Fe, g: Fe): Fe {
    Plus(Scaled(f.l0, g), Plus(Turn1(Scaled(f.l1, g)), Plus(Turn2(Scaled(f.l2, g)),
      Plus(Turn3(Scaled(f.l3, g)), Turn4(Scaled(f.l4, g))))))
  }

  function HighRows(f: Fe, g: Fe): Fe {
    Plus(Turn5(Scaled(f.l5, g)), Plus(Turn6(Scaled(f.l6, g)), Plus(Turn7(Scaled(f.l7, g)),
      Plus(Turn8(Scaled(f.l8, g)), Turn9(Scaled(f.l9, g))))))
  }

  /** The rows stand for the product of the values. */
  lemma ProductValue(f: Fe, g: Fe)
    ensures Cong(P, Val(f) * Val(g), Val(Product(f, g)))
  {
    hide Cong, LowRows, HighRows, Product, Plus, Val, Upper;
    var v := Val(g);
    RowsAreColumns(f, g);
    LowValue(f, g);
    HighValue(f, g);
    CongAdd(P, LowPart(f) * v, HighPart(f) * v, Val(LowRows(f, g)), Val(HighRows(f, g)));
    Distribute(LowPart(f), HighPart(f), v);
    PartsValue(f);
  }

  function LowPart(f: Fe): int {
    f.l0 + 0x400_0000 * (f.l1 + 0x200_0000 * (f.l2 + 0x400_0000 * (f.l3 + 0x200_0000 * f.l4)))
  }

  function HighPart(f: Fe): int {
    W5 * Upper(f)
  }

  lemma PartsValue(f: Fe)
    ensures Val(f) == LowPart(f) + HighPart(f)
  {
  }

  lemma RowValue1(h: int, g: Fe)
    ensures Cong(P, W1 * (h * Val(g)), Val(Turn1(Scaled(h, g))))
  {
    hide Cong, Turn1, Val, Scaled;
    Turn1Value(Scaled(h, g));
    ScaledValue(h, g);
  }

  lemma RowValue2(h: int, g: Fe)
    ensures Cong(P, W2 * (h * Val(g)), Val(Turn2(Scaled(h, g))))
  {
    hide Cong, Turn2, Val, Scaled;
    Turn2Value(Scaled(h, g));
    ScaledValue(h, g);
  }

  lemma RowValue3(h: int, g: Fe)
    ensures Cong(P, W3 * (h * Val(g)), Val(Turn3(Scaled(h, g))))
  {
    hide Cong, Turn3, Val, Scaled;
    Turn3Value(Scaled(h, g));
    ScaledValue(h, g);
  }

  lemma RowValue4(h: int, g: Fe)
    ensures Cong(P, W4 * (h * Val(g)), Val(Turn4(Scaled(h, g))))
  {
    hide Cong, Turn4, Val, Scaled;
    Turn4Value(Scaled(h, g));
    ScaledValue(h, g);
  }

  lemma RowValue5(h: int, g: Fe)
    ensures Cong(P, W5 * (h * Val(g)), Val(Turn5(Scaled(h, g))))
  {
    hide Cong, Turn5, Val, Scaled;
    Turn5Value(Scaled(h, g));
    ScaledValue(h, g);
  }

  lemma RowValue6(h: int, g: Fe)
    ensures Cong(P, W6 * (h * Val(g)), Val(Turn6(Scaled(h, g))))
  {
    hide Cong, Turn6, Val, Scaled;
    Turn6Value(Scaled(h, g));
    ScaledValue(h, g);
  }

  lemma RowValue7(h: int, g: Fe)
    ensures Cong(P, W7 * (h * Val(g)), Val(Turn7(Scaled(h, g))))
  {
    hide Cong, Turn7, Val, Scaled;
    Turn7Value(Scaled(h, g));
    ScaledValue(h, g);
  }

  lemma RowValue8(h: int, g: Fe)
    ensures Cong(P, W8 * (h * Val(g)), Val(Turn8(Scaled(h, g))))
  {
    hide Cong, Turn8, Val, Scaled;
    Turn8Value(Scaled(h, g));
    ScaledValue(h, g);
  }

  lemma RowValue9(h: int, g: Fe)
    ensures Cong(P, W9 * (h * Val(g)), Val(Turn9(Scaled(h, g))))
  {
    hide Cong, Turn9, Val, Scaled;
    Turn9Value(Scaled(h, g));
    ScaledValue(h, g);
  }

  lemma LowValue(f: Fe, g: Fe)
    ensures Cong(P, LowPart(f) * Val(g), Val(LowRows(f, g)))
  {
    hide Cong, Turn1, Turn2, Turn3, Turn4, Plus, Val, Scaled;
    var v := Val(g);
    var x1, x2 := Turn1(Scaled(f.l1, g)), Turn2(Scaled(f.l2, g));
    var x3, x4 := Turn3(Scaled(f.l3, g)), Turn4(Scaled(f.l4, g));
    ScaledValue(f.l0, g);
    CongSame(P, f.l0 * v);
    RowValue1(f.l1, g);
    RowValue2(f.l2, g);
    RowValue3(f.l3, g);
    RowValue4(f.l4, g);
    var p0, p1, p2, p3, p4 := f.l0 * v, W1 * (f.l1 * v), W2 * (f.l2 * v), W3 * (f.l3 * v), W4 * (f.l4 * v);
    CongAdd(P, p3, p4, Val(x3), Val(x4));
    CongAdd(P, p2, p3 + p4, Val(x2), Val(x3) + Val(x4));
    CongAdd(P, p1, p2 + (p3 + p4), Val(x1), Val(x2) + (Val(x3) + Val(x4)));
    CongAdd(P, p0, p1 + (p2 + (p3 + p4)), f.l0 * v, Val(x1) + (Val(x2) + (Val(x3) + Val(x4))));
    LowSpread(f, v);
  }

  lemma LowSpread(f: Fe, v: int)
    ensures LowPart(f) * v == f.l0 * v + (W1 * (f.l1 * v) + (W2 * (f.l2 * v) + (W3 * (f.l3 * v) + W4 * (f.l4 * v))))
  {
    var e3 := f.l3 + 0x200_0000 * f.l4;
    var e2 := f.l2 + 0x400_0000 * e3;
    var e1 := f.l1 + 0x200_0000 * e2;
    Scale25(v, f.l3, f.l4);
    Scale26(v, f.l2, e3);
    Scale25(v, f.l1, e2);
    Scale26(v, f.l0, e1);
  }

  lemma HighValue(f: Fe, g: Fe)
    ensures Cong(P, HighPart(f) * Val(g), Val(HighRows(f, g)))
  {
    hide Cong, Turn5, Turn6, Turn7, Turn8, Turn9, Plus, Val, Scaled;
    var v := Val(g);
    var x5, x6, x7 := Turn5(Scaled(f.l5, g)), Turn6(Scaled(f.l6, g)), Turn7(Scaled(f.l7, g));
    var x8, x9 := Turn8(Scaled(f.l8, g)), Turn9(Scaled(f.l9, g));
    RowValue5(f.l5, g);
    RowValue6(f.l6, g);
    RowValue7(f.l7, g);
    RowValue8(f.l8, g);
    RowValue9(f.l9, g);
    var p5, p6 := W5 * (f.l5 * v), W6 * (f.l6 * v);
    var p7, p8 := W7 * (f.l7 * v), W8 * (f.l8 * v);
    var p9 := W9 * (f.l9 * v);
    CongAdd(P, p8, p9, Val(x8), Val(x9));
    CongAdd(P, p7, p8 + p9, Val(x7), Val(x8) + Val(x9));
    CongAdd(P, p6, p7 + (p8 + p9), Val(x6), Val(x7) + (Val(x8) + Val(x9)));
    CongAdd(P, p5, p6 + (p7 + (p8 + p9)), Val(x5), Val(x6) + (Val(x7) + (Val(x8) + Val(x9))));
    HighSpread(f, v);
  }

  lemma HighSpread(f: Fe, v: int)
    ensures HighPart(f) * v ==
            W5 * (f.l5 * v) + (W6 * (f.l6 * v) +
            (W7 * (f.l7 * v) + (W8 * (f.l8 * v) +
            W9 * (f.l9 * v))))
  {
    var e8 := f.l8 + 0x400_0000 * f.l9;
    var e7 := f.l7 + 0x200_0000 * e8;
    var e6 := f.l6 + 0x400_0000 * e7;
    Scale26(v, f.l8, f.l9);
    Scale25(v, f.l7, e8);
    Scale26(v, f.l6, e7);
    Scale25(v, f.l5, e6);
    assert HighPart(f) * v == W5 * (v * Upper(f));
  }

  /* ---- Bounds ---- */

  /** At most k times 1.01 * 2^25 in the 26-bit limbs and k times 1.01 * 2^24 in the others. */
  predicate Within(x: Fe, k: int) {
    && Bounded(x.l0, k * 0x205_0000) && Bounded(x.l1, k * 0x102_8000) && Bounded(x.l2, k * 0x205_0000)
    && Bounded(x.l3, k * 0x102_8000) && Bounded(x.l4, k * 0x205_0000) && Bounded(x.l5, k * 0x102_8000)
    && Bounded(x.l6, k * 0x205_0000) && Bounded(x.l7, k * 0x102_8000) && Bounded(x.l8, k * 0x205_0000)
    && Bounded(x.l9, k * 0x102_8000)
  }

  predicate Bounded(v: int, b: int) {
    -b <= v <= b
  }

  predicate AllBounded(x: Fe, b: int) {
    && Bounded(x.l0, b) && Bounded(x.l1, b) && Bounded(x.l2, b) && Bounded(x.l3, b) && Bounded(x.l4, b)
    && Bounded(x.l5, b) && Bounded(x.l6, b) && Bounded(x.l7, b) && Bounded(x.l8, b) && Bounded(x.l9, b)
  }

  /** The largest product of two 26-bit limbs of arguments within four. */
  const PRODUCT_MAX: int := 0x41_4190_0000_0000

  lemma ProductMax(a: int, b: int, aMax: int, bMax: int)
    requires Bounded(a, aMax) && Bounded(b, bMax)
    ensures Bounded(a * b, aMax * bMax)
  {
    if b >= 0 {
      ProductLimits(a, b, aMax, bMax);
    } else {
      ProductLimits(a, -b, aMax, bMax);
      Negate(a, -b);
    }
  }

  lemma ProductLimits(a: int, b: int, aMax: int, bMax: int)
    requires Bounded(a, aMax) && 0 <= b <= bMax
    ensures Bounded(a * b, aMax * bMax)
  {
    GrowFactor(a, b, aMax);
    GrowFactor(-aMax, b, a);
    GrowFactor(b, aMax, bMax);
    Negate(b, aMax);
    Negate(bMax, aMax);
  }

  lemma GrowFactor(a: int, b: int, a': int)
    requires a <= a' && b >= 0
    ensures a * b <= a' * b
  {
  }

  /** Products of one limb with ten: half in the 25-bit places. */
  predicate RowBounded(x: Fe, b: int) {
    && Bounded(x.l0, 2 * b) && Bounded(x.l1, b) && Bounded(x.l2, 2 * b) && Bounded(x.l3, b) && Bounded(x.l4, 2 * b)
    && Bounded(x.l5, b) && Bounded(x.l6, 2 * b) && Bounded(x.l7, b) && Bounded(x.l8, 2 * b) && Bounded(x.l9, b)
  }

  lemma EvenRow(h: int, g: Fe)
    requires Bounded(h, 0x814_0000) && Within(g, 4)
    ensures RowBounded(Scaled(h, g), PRODUCT_MAX / 2)
  {
    hide Bounded;
    assert PRODUCT_MAX == 0x814_0000 * 0x814_0000;
    ProductMax(h, g.l0, 0x814_0000, 0x814_0000);
    ProductMax(h, g.l1, 0x814_0000, 0x40a_0000);
    ProductMax(h, g.l2, 0x814_0000, 0x814_0000);
    ProductMax(h, g.l3, 0x814_0000, 0x40a_0000);
    ProductMax(h, g.l4, 0x814_0000, 0x814_0000);
    ProductMax(h, g.l5, 0x814_0000, 0x40a_0000);
    ProductMax(h, g.l6, 0x814_0000, 0x814_0000);
    ProductMax(h, g.l7, 0x814_0000, 0x40a_0000);
    ProductMax(h, g.l8, 0x814_0000, 0x814_0000);
    ProductMax(h, g.l9, 0x814_0000, 0x40a_0000);
  }

  lemma OddRow(h: int, g: Fe)
    requires Bounded(h, 0x40a_0000) && Within(g, 4)
    ensures RowBounded(Scaled(h, g), PRODUCT_MAX / 4)
  {
    hide Bounded;
    assert PRODUCT_MAX == 0x814_0000 * 0x814_0000;
    ProductMax(h, g.l0, 0x40a_0000, 0x814_0000);
    ProductMax(h, g.l1, 0x40a_0000, 0x40a_0000);
    ProductMax(h, g.l2, 0x40a_0000, 0x814_0000);
    ProductMax(h, g.l3, 0x40a_0000, 0x40a_0000);
    ProductMax(h, g.l4, 0x40a_0000, 0x814_0000);
    ProductMax(h, g.l5, 0x40a_0000, 0x40a_0000);
    ProductMax(h, g.l6, 0x40a_0000, 0x814_0000);
    ProductMax(h, g.l7, 0x40a_0000, 0x40a_0000);
    ProductMax(h, g.l8, 0x40a_0000, 0x814_0000);
    ProductMax(h, g.l9, 0x40a_0000, 0x40a_0000);
  }

  lemma Turn1Bound(x: Fe)
    requires RowBounded(x, PRODUCT_MAX / 4)
    ensures AllBounded(Turn1(x), 19 * PRODUCT_MAX)
  {
  }

  lemma Turn2Bound(x: Fe)
    requires RowBounded(x, PRODUCT_MAX / 2)
    ensures AllBounded(Turn2(x), 19 * PRODUCT_MAX)
  {
  }

  lemma Turn3Bound(x: Fe)
    requires RowBounded(x, PRODUCT_MAX / 4)
    ensures AllBounded(Turn3(x), 19 * PRODUCT_MAX)
  {
  }

  lemma Turn4Bound(x: Fe)
    requires RowBounded(x, PRODUCT_MAX / 2)
    ensures AllBounded(Turn4(x), 19 * PRODUCT_MAX)
  {
  }

  lemma Turn5Bound(x: Fe)
    requires RowBounded(x, PRODUCT_MAX / 4)
    ensures AllBounded(Turn5(x), 19 * PRODUCT_MAX)
  {
  }

  lemma Turn6Bound(x: Fe)
    requires RowBounded(x, PRODUCT_MAX / 2)
    ensures AllBounded(Turn6(x), 19 * PRODUCT_MAX)
  {
  }

  lemma Turn7Bound(x: Fe)
    requires RowBounded(x, PRODUCT_MAX / 4)
    ensures AllBounded(Turn7(x), 19 * PRODUCT_MAX)
  {
  }

  lemma Turn8Bound(x: Fe)
    requires RowBounded(x, PRODUCT_MAX / 2)
    ensures AllBounded(Turn8(x), 19 * PRODUCT_MAX)
  {
  }

  lemma Turn9Bound(x: Fe)
    requires RowBounded(x, PRODUCT_MAX / 4)
    ensures AllBounded(Turn9(x), 19 * PRODUCT_MAX)
  {
  }

  /** No term is above 2^62 / 10. */
  const TERM_MAX: int := 19 * PRODUCT_MAX

  lemma LowTerms(f: Fe, g: Fe)
    requires Within(f, 4) && Within(g, 4)
    ensures AllBounded(Scaled(f.l0, g), TERM_MAX) && AllBounded(Turn1(Scaled(f.l1, g)), TERM_MAX)
    ensures AllBounded(Turn2(Scaled(f.l2, g)), TERM_MAX) && AllBounded(Turn3(Scaled(f.l3, g)), TERM_MAX)
    ensures AllBounded(Turn4(Scaled(f.l4, g)), TERM_MAX)
  {
    hide Scaled, Turn1, Turn2, Turn3, Turn4, AllBounded, RowBounded, Bounded;
    EvenRow(f.l0, g);
    FirstBound(Scaled(f.l0, g));
    OddRow(f.l1, g);
    Turn1Bound(Scaled(f.l1, g));
    EvenRow(f.l2, g);
    Turn2Bound(Scaled(f.l2, g));
    OddRow(f.l3, g);
    Turn3Bound(Scaled(f.l3, g));
    EvenRow(f.l4, g);
    Turn4Bound(Scaled(f.l4, g));
  }

  lemma HighTerms(f: Fe, g: Fe)
    requires Within(f, 4) && Within(g, 4)
    ensures AllBounded(Turn5(Scaled(f.l5, g)), TERM_MAX) && AllBounded(Turn6(Scaled(f.l6, g)), TERM_MAX)
    ensures AllBounded(Turn7(Scaled(f.l7, g)), TERM_MAX) && AllBounded(Turn8(Scaled(f.l8, g)), TERM_MAX)
    ensures AllBounded(Turn9(Scaled(f.l9, g)), TERM_MAX)
  {
    hide Scaled, Turn5, Turn6, Turn7, Turn8, Turn9, AllBounded, RowBounded, Bounded;
    OddRow(f.l5, g);
    Turn5Bound(Scaled(f.l5, g));
    EvenRow(f.l6, g);
    Turn6Bound(Scaled(f.l6, g));
    OddRow(f.l7, g);
    Turn7Bound(Scaled(f.l7, g));
    EvenRow(f.l8, g);
    Turn8Bound(Scaled(f.l8, g));
    OddRow(f.l9, g);
    Turn9Bound(Scaled(f.l9, g));
  }

  lemma PlusBound(x: Fe, y: Fe, a: int, b: int)
    requires AllBounded(x, a) && AllBounded(y, b)
    ensures AllBounded(Plus(x, y), a + b)
  {
  }

  /** No column is above 2^62. */
  lemma ProductBound(f: Fe, g: Fe)
    requires Within(f, 4) && Within(g, 4)
    ensures AllBounded(Product(f, g), 190 * PRODUCT_MAX) && 190 * PRODUCT_MAX < 0x4000_0000_0000_0000
  {
    hide LowRows, HighRows, Product, Plus, AllBounded;
    RowsAreColumns(f, g);
    LowBound(f, g);
    HighBound(f, g);
    PlusBound(LowRows(f, g), HighRows(f, g), 95 * PRODUCT_MAX, 95 * PRODUCT_MAX);
  }

  lemma LowBound(f: Fe, g: Fe)
    requires Within(f, 4) && Within(g, 4)
    ensures AllBounded(LowRows(f, g), 95 * PRODUCT_MAX)
  {
    hide Scaled, Turn1, Turn2, Turn3, Turn4, Plus, AllBounded, RowBounded, Bounded;
    var m := TERM_MAX;
    LowTerms(f, g);
    var x3, x4 := Turn3(Scaled(f.l3, g)), Turn4(Scaled(f.l4, g));
    PlusBound(x3, x4, m, m);
    PlusBound(Turn2(Scaled(f.l2, g)), Plus(x3, x4), m, 2 * m);
    PlusBound(Turn1(Scaled(f.l1, g)), Plus(Turn2(Scaled(f.l2, g)), Plus(x3, x4)), m, 3 * m);
    PlusBound(Scaled(f.l0, g), Plus(Turn1(Scaled(f.l1, g)), Plus(Turn2(Scaled(f.l2, g)), Plus(x3, x4))), m, 4 * m);
  }

  lemma FirstBound(x: Fe)
    requires RowBounded(x, PRODUCT_MAX / 2)
    ensures AllBounded(x, 19 * PRODUCT_MAX)
  {
  }

  lemma HighBound(f: Fe, g: Fe)
    requires Within(f, 4) && Within(g, 4)
    ensures AllBounded(HighRows(f, g), 95 * PRODUCT_MAX)
  {
    hide Scaled, Turn5, Turn6, Turn7, Turn8, Turn9, Plus, AllBounded, RowBounded, Bounded;
    var m := TERM_MAX;
    HighTerms(f, g);
    var x8, x9 := Turn8(Scaled(f.l8, g)), Turn9(Scaled(f.l9, g));
    PlusBound(x8, x9, m, m);
    PlusBound(Turn7(Scaled(f.l7, g)), Plus(x8, x9), m, 2 * m);
    PlusBound(Turn6(Scaled(f.l6, g)), Plus(Turn7(Scaled(f.l7, g)), Plus(x8, x9)), m, 3 * m);
    var x6, x7 := Turn6(Scaled(f.l6, g)), Turn7(Scaled(f.l7, g));
    PlusBound(Turn5(Scaled(f.l5, g)), Plus(x6, Plus(x7, Plus(x8, x9))), m, 4 * m);
  }

  /* ---- Carries ---- */

  /** Rounded carry out of a 26-bit limb. */
  function Carry26(h: int): int {
    (h + 0x200_0000) / 0x400_0000
  }

  /** Rounded carry out of a 25-bit limb. */
  function Carry25(h: int): int {
    (h + 0x100_0000) / 0x200_0000
  }

  lemma Carry26Bound(h: int)
    ensures Bounded(h - 0x400_0000 * Carry26(h), 0x200_0000)
  {
  }

  lemma Carry25Bound(h: int)
    ensures Bounded(h - 0x200_0000 * Carry25(h), 0x100_0000)
  {
  }

  /** The first eight carries: 0, 4, 1, 5, 2, 6, 3, 7. */
  function FirstCarries(h: Fe): Fe {
    var c0, c4 := Carry26(h.l0), Carry26(h.l4);
    var c1, c5 := Carry25(h.l1 + c0), Carry25(h.l5 + c4);
    var c2, c6 := Carry26(h.l2 + c1), Carry26(h.l6 + c5);
    var c3, c7 := Carry25(h.l3 + c2), Carry25(h.l7 + c6);
    Fe(h.l0 - 0x400_0000 * c0, h.l1 + c0 - 0x200_0000 * c1, h.l2 + c1 - 0x400_0000 * c2, h.l3 + c2 - 0x200_0000 * c3,
      h.l4 - 0x400_0000 * c4 + c3, h.l5 + c4 - 0x200_0000 * c5, h.l6 + c5 - 0x400_0000 * c6,
      h.l7 + c6 - 0x200_0000 * c7, h.l8 + c7, h.l9)
  }

  lemma FirstCarriesValue(h: Fe)
    ensures Val(FirstCarries(h)) == Val(h)
  {
    hide Carry26, Carry25;
  }

  /** The last carries: 4, 8, 9 back into 0, and 0. */
  function LastCarries(h: Fe): Fe {
    var c4, c8 := Carry26(h.l4), Carry26(h.l8);
    var c9 := Carry25(h.l9 + c8);
    var c0 := Carry26(h.l0 + 19 * c9);
    Fe(h.l0 + 19 * c9 - 0x400_0000 * c0, h.l1 + c0, h.l2, h.l3, h.l4 - 0x400_0000 * c4, h.l5 + c4, h.l6, h.l7,
      h.l8 - 0x400_0000 * c8, h.l9 + c8 - 0x200_0000 * c9)
  }

  lemma LastCarriesValue(h: Fe)
    ensures Cong(P, Val(h), Val(LastCarries(h)))
  {
    hide Carry26, Carry25;
    var c9 := Carry25(h.l9 + Carry26(h.l8));
    CongIntro(P, Val(h), Val(LastCarries(h)), c9);
  }

  function Carried(h: Fe): Fe {
    LastCarries(FirstCarries(h))
  }

  lemma CarriedValue(h: Fe)
    ensures Cong(P, Val(h), Val(Carried(h)))
  {
    hide Cong, Val, FirstCarries, LastCarries;
    FirstCarriesValue(h);
    LastCarriesValue(FirstCarries(h));
  }

  /** Limbs after the first carries, from columns below 2^62. */
  predicate HalfCarried(x: Fe) {
    && Bounded(x.l0, 0x200_0000) && Bounded(x.l1, 0x100_0000) && Bounded(x.l2, 0x200_0000)
    && Bounded(x.l3, 0x100_0000) && Bounded(x.l4, 0x40_0400_0000) && Bounded(x.l5, 0x100_0000)
    && Bounded(x.l6, 0x200_0000) && Bounded(x.l7, 0x100_0000) && Bounded(x.l8, 0x4000_0040_0000_0000)
    && Bounded(x.l9, 0x4000_0000_0000_0000)
  }

  lemma FirstCarriesBound(h: Fe)
    requires AllBounded(h, 0x4000_0000_0000_0000)
    ensures HalfCarried(FirstCarries(h))
  {
    var c0, c4 := Carry26(h.l0), Carry26(h.l4);
    var c1, c5 := Carry25(h.l1 + c0), Carry25(h.l5 + c4);
    var c2, c6 := Carry26(h.l2 + c1), Carry26(h.l6 + c5);
    var c3, c7 := Carry25(h.l3 + c2), Carry25(h.l7 + c6);
    CarryStep(h.l0);
    CarryStep(h.l4);
    CarryStep(h.l1 + c0);
    CarryStep(h.l5 + c4);
    CarryStep(h.l2 + c1);
    CarryStep(h.l6 + c5);
    CarryStep(h.l3 + c2);
    CarryStep(h.l7 + c6);
    hide Carry25, Carry26;
  }

  /** Carries of a 64-bit column. */
  lemma CarryStep(h: int)
    requires Bounded(h, 0x4000_0040_0000_0000)
    ensures Bounded(Carry26(h), 0x10_0000_2000) && Bounded(h - 0x400_0000 * Carry26(h), 0x200_0000)
    ensures Bounded(Carry25(h), 0x20_0000_4000) && Bounded(h - 0x200_0000 * Carry25(h), 0x100_0000)
  {
  }

  lemma LastCarriesBound(h: Fe)
    requires HalfCarried(h)
    ensures Within(LastCarries(h), 1)
  {
  }
}
