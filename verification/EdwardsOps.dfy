/** The ge_ functions in place, and the 255-step ladder. */
module EdwardsOps {
  import opened Bits
  import opened Congruence
  import opened FieldLimbs
  import opened FieldOps
  import opened FieldPower
  import opened EdwardsCurve
  import opened EdwardsLadder

  /* ---- Field operations on limbs that stand for known residues ---- */

  /** The limbs are within k and stand for a. */
  ghost predicate Rep(x: array<int32>, a: int, k: int)
    requires x.Length == 10
    reads x
  {
    Within(F(x), k) && Cong(P, a, Val(F(x)))
  }

  lemma RepMore(x: array<int32>, a: int, j: int, k: int)
    requires x.Length == 10 && Rep(x, a, j) && j <= k
    ensures Rep(x, a, k)
  {
    hide Cong, Val, Within, F;
    WithinMore(F(x), j, k);
  }

  method RepMul(h: array<int32>, f: array<int32>, g: array<int32>, ghost a: int, ghost b: int)
    requires h.Length == 10 && f.Length == 10 && g.Length == 10 && Rep(f, a, 4) && Rep(g, b, 4)
    modifies h
    ensures Rep(h, a * b, 1) && Rep(h, a * b, 4)
  {
    hide Cong, Within, F, Val;
    ghost var x, y := Val(F(f)), Val(F(g));
    Mul(h, f, g);
    WithinMore(F(h), 1, 4);
    CongMul(P, a, b, x, y);
    CongTrans(P, a * b, x * y, Val(F(h)));
  }

  method RepSq(h: array<int32>, f: array<int32>, ghost a: int)
    requires h.Length == 10 && f.Length == 10 && Rep(f, a, 4)
    modifies h
    ensures Rep(h, a * a, 1) && Rep(h, a * a, 4)
  {
    hide Cong, Within, F, Val;
    ghost var x := Val(F(f));
    Sq(h, f);
    WithinMore(F(h), 1, 4);
    CongMul(P, a, a, x, x);
    CongTrans(P, a * a, x * x, Val(F(h)));
  }

  method RepSq2(h: array<int32>, f: array<int32>, ghost a: int)
    requires h.Length == 10 && f.Length == 10 && Rep(f, a, 4)
    modifies h
    ensures Rep(h, 2 * (a * a), 2)
  {
    hide Cong, Within, F, Val;
    ghost var x := Val(F(f));
    Sq2(h, f);
    CongMul(P, a, a, x, x);
    CongScale(P, a * a, x * x, 2);
    CongTrans(P, 2 * (a * a), 2 * (x * x), Val(F(h)));
  }

  lemma WithinSum(x: Fe, y: Fe, j: int, k: int)
    requires Within(x, j) && Within(y, k) && 0 <= j <= 4 && 0 <= k <= 4
    ensures Within(Plus(x, y), j + k) && Within(Minus(x, y), j + k)
    ensures AllBounded(x, 0x3fff_ffff) && AllBounded(y, 0x3fff_ffff)
  {
    hide Val;
  }

  method RepAdd(h: array<int32>, f: array<int32>, g: array<int32>, ghost a: int, ghost b: int,
                ghost j: int, ghost k: int)
    requires h.Length == 10 && f.Length == 10 && g.Length == 10 && Rep(f, a, j) && Rep(g, b, k)
    requires 0 <= j <= 4 && 0 <= k <= 4
    modifies h
    ensures Rep(h, a + b, j + k)
  {
    hide Cong, Within, F, Val, Plus, Minus, AllBounded;
    ghost var x, y := F(f), F(g);
    WithinSum(x, y, j, k);
    Add(h, f, g);
    CongAdd(P, a, b, Val(x), Val(y));
  }

  method RepSub(h: array<int32>, f: array<int32>, g: array<int32>, ghost a: int, ghost b: int,
                ghost j: int, ghost k: int)
    requires h.Length == 10 && f.Length == 10 && g.Length == 10 && Rep(f, a, j) && Rep(g, b, k)
    requires 0 <= j <= 4 && 0 <= k <= 4
    modifies h
    ensures Rep(h, a - b, j + k)
  {
    hide Cong, Within, F, Val, Plus, Minus, AllBounded;
    ghost var x, y := F(f), F(g);
    WithinSum(x, y, j, k);
    Sub(h, f, g);
    CongSub(P, a, b, Val(x), Val(y));
  }

  /* ---- Points in memory ---- */

  /** Four coordinates: ge_p3, ge_p1p1 and ge_cached; ge_p2 has no fourth. */
  class Coords {
    const X: array<int32>
    const Y: array<int32>
    const Z: array<int32>
    const T: array<int32>

    /** Four separate arrays of ten limbs. */
    ghost predicate Shape() {
      && X.Length == 10 && Y.Length == 10 && Z.Length == 10 && T.Length == 10
      && X != Y && X != Z && X != T && Y != Z && Y != T && Z != T
    }

    ghost function Arrays(): set<array<int32>> {
      {X, Y, Z, T}
    }

    constructor ()
      ensures Shape() && fresh(X) && fresh(Y) && fresh(Z) && fresh(T)
    {
      X, Y, Z, T := new int32[10], new int32[10], new int32[10], new int32[10];
    }

    /** The coordinates stand for p, in freshly carried limbs. */
    ghost predicate Shows(p: Point)
      requires Shape()
      reads X, Y, Z, T
    {
      Rep(X, p.x, 1) && Rep(Y, p.y, 1) && Rep(Z, p.z, 1) && Rep(T, p.t, 1)
    }

    /** The three coordinates of a ge_p2. */
    ghost predicate ShowsThree(p: Point)
      requires Shape()
      reads X, Y, Z
    {
      Rep(X, p.x, 1) && Rep(Y, p.y, 1) && Rep(Z, p.z, 1)
    }

    /** y + x, y - x, z and 2 d t of a cached point. */
    ghost predicate ShowsCached(p: Point)
      requires Shape()
      reads X, Y, Z, T
    {
      Rep(X, p.y + p.x, 2) && Rep(Y, p.y - p.x, 2) && Rep(Z, p.z, 1) && Rep(T, p.t * (2 * D), 1)
    }

    /** The factors of a completed point, in uncarried limbs. */
    ghost predicate ShowsFactors(c: Factors)
      requires Shape()
      reads X, Y, Z, T
    {
      Rep(X, c.e, 4) && Rep(Y, c.h, 4) && Rep(Z, c.g, 4) && Rep(T, c.f, 4)
    }
  }

  /** ge_p2_dbl. */
  method P2Dbl(r: Coords, p: Coords, ghost v: Point)
    requires r.Shape() && p.Shape() && r.Arrays() !! p.Arrays() && p.ShowsThree(v)
    modifies r.X, r.Y, r.Z, r.T
    ensures r.ShowsFactors(DoubleFactors(v))
  {
    hide Rep;
    var t0 := new int32[10];
    RepMore(p.X, v.x, 1, 4);
    RepMore(p.Y, v.y, 1, 4);
    RepMore(p.Z, v.z, 1, 4);
    ghost var xx, yy, s := v.x * v.x, v.y * v.y, v.x + v.y;
    RepSq(r.X, p.X, v.x);
    RepSq(r.Z, p.Y, v.y);
    RepSq2(r.T, p.Z, v.z);
    RepAdd(r.Y, p.X, p.Y, v.x, v.y, 1, 1);
    RepMore(r.Y, s, 2, 4);
    RepSq(t0, r.Y, s);
    RepAdd(r.Y, r.Z, r.X, yy, xx, 1, 1);
    RepSub(r.Z, r.Z, r.X, yy, xx, 1, 1);
    RepSub(r.X, t0, r.Y, s * s, yy + xx, 1, 2);
    RepSub(r.T, r.T, r.Z, 2 * (v.z * v.z), yy - xx, 2, 2);
    RepMore(r.X, s * s - (yy + xx), 3, 4);
    RepMore(r.Y, yy + xx, 2, 4);
    RepMore(r.Z, yy - xx, 2, 4);
  }

  /** ge_p1p1_to_p3. */
  method P1p1ToP3(r: Coords, p: Coords, ghost c: Factors)
    requires r.Shape() && p.Shape() && r.Arrays() !! p.Arrays() && p.ShowsFactors(c)
    modifies r.X, r.Y, r.Z, r.T
    ensures r.Shows(Complete(c))
  {
    hide Rep;
    RepMul(r.X, p.X, p.T, c.e, c.f);
    RepMul(r.Y, p.Y, p.Z, c.h, c.g);
    RepMul(r.Z, p.Z, p.T, c.g, c.f);
    RepMul(r.T, p.X, p.Y, c.e, c.h);
  }

  method RepCopy(h: array<int32>, f: array<int32>, ghost a: int)
    requires h.Length == 10 && f.Length == 10 && Rep(f, a, 1)
    modifies h
    ensures Rep(h, a, 1)
  {
    hide Cong, Within, F, Val;
    Copy(h, f);
  }

  method RepCmov(h: array<int32>, f: array<int32>, b: bit, ghost a: int, ghost a': int)
    requires h.Length == 10 && f.Length == 10 && Rep(h, a, 1) && Rep(f, a', 1)
    modifies h
    ensures Rep(h, if b == 1 then a' else a, 1)
  {
    hide Cong, Within, F, Val;
    Cmov(h, f, b);
  }

  /** ge_p3_dbl. */
  method P3Dbl(r: Coords, p: Coords, ghost v: Point)
    requires r.Shape() && p.Shape() && r.Arrays() !! p.Arrays() && p.Shows(v)
    modifies r.X, r.Y, r.Z, r.T
    ensures r.Shows(Doubled(v))
  {
    hide Rep, DoubleFactors, Complete;
    var p2 := new Coords();
    var tmp := new Coords();
    RepCopy(p2.X, p.X, v.x);
    RepCopy(p2.Y, p.Y, v.y);
    RepCopy(p2.Z, p.Z, v.z);
    P2Dbl(tmp, p2, v);
    P1p1ToP3(r, tmp, DoubleFactors(v));
  }

  /** The limbs of 2 d. */
  const TWICE_D: Fe := Fe(-21827239, -5839606, -30745221, 13898782, 229458,
    15978800, -12551817, -6495438, 29715968, 9444199)

  lemma TwiceDValue()
    ensures Within(TWICE_D, 1) && Cong(P, 2 * D, Val(TWICE_D))
  {
    CongIntro(P, 2 * D, Val(TWICE_D), (2 * D - Val(TWICE_D)) / P);
  }

  /** ge_p3_to_cached. */
  method P3ToCached(r: Coords, p: Coords, ghost v: Point)
    requires r.Shape() && p.Shape() && r.Arrays() !! p.Arrays() && p.Shows(v)
    modifies r.X, r.Y, r.Z, r.T
    ensures r.ShowsCached(v)
  {
    hide Rep;
    var d2 := TwiceD();
    RepAdd(r.X, p.Y, p.X, v.y, v.x, 1, 1);
    RepSub(r.Y, p.Y, p.X, v.y, v.x, 1, 1);
    RepCopy(r.Z, p.Z, v.z);
    RepMore(p.T, v.t, 1, 4);
    RepMul(r.T, p.T, d2, v.t, 2 * D);
  }

  method TwiceD() returns (d2: array<int32>)
    ensures d2.Length == 10 && fresh(d2) && Rep(d2, 2 * D, 4)
  {
    hide Cong, Within, Val;
    d2 := new int32[10];
    TwiceDValue();
    Store(d2, TWICE_D);
    WithinMore(TWICE_D, 1, 4);
  }

  /** The four products of ge_add_r. */
  method AddProducts(r: Coords, p: Coords, q: Coords, ghost v: Point, ghost w: Point)
    requires r.Shape() && p.Shape() && q.Shape() && r.Arrays() !! p.Arrays() && r.Arrays() !! q.Arrays()
    requires p.Shows(v) && q.ShowsCached(w)
    modifies r.X, r.Y, r.Z, r.T
    ensures Rep(r.Z, (v.y + v.x) * (w.y + w.x), 1) && Rep(r.Y, (v.y - v.x) * (w.y - w.x), 1)
    ensures Rep(r.T, (w.t * (2 * D)) * v.t, 1) && Rep(r.X, v.z * w.z, 1)
  {
    hide Rep;
    RepMore(p.Z, v.z, 1, 4);
    RepMore(p.T, v.t, 1, 4);
    RepMore(q.X, w.y + w.x, 2, 4);
    RepMore(q.Y, w.y - w.x, 2, 4);
    RepMore(q.Z, w.z, 1, 4);
    RepMore(q.T, w.t * (2 * D), 1, 4);
    RepAdd(r.X, p.Y, p.X, v.y, v.x, 1, 1);
    RepSub(r.Y, p.Y, p.X, v.y, v.x, 1, 1);
    RepMore(r.X, v.y + v.x, 2, 4);
    RepMore(r.Y, v.y - v.x, 2, 4);
    RepMul(r.Z, r.X, q.X, v.y + v.x, w.y + w.x);
    RepMul(r.Y, r.Y, q.Y, v.y - v.x, w.y - w.x);
    RepMul(r.T, q.T, p.T, w.t * (2 * D), v.t);
    RepMul(r.X, p.Z, q.Z, v.z, w.z);
  }

  /** Its sums and differences. */
  method AddSums(r: Coords, ghost a: int, ghost b: int, ghost c: int, ghost d: int)
    requires r.Shape() && Rep(r.Z, a, 1) && Rep(r.Y, b, 1) && Rep(r.T, c, 1) && Rep(r.X, d, 1)
    modifies r.X, r.Y, r.Z, r.T
    ensures Rep(r.X, a - b, 4) && Rep(r.Y, a + b, 4) && Rep(r.Z, (d + d) + c, 4) && Rep(r.T, (d + d) - c, 4)
  {
    hide Rep;
    var t0 := new int32[10];
    RepAdd(t0, r.X, r.X, d, d, 1, 1);
    RepSub(r.X, r.Z, r.Y, a, b, 1, 1);
    RepAdd(r.Y, r.Z, r.Y, a, b, 1, 1);
    RepAdd(r.Z, t0, r.T, d + d, c, 2, 1);
    RepSub(r.T, t0, r.T, d + d, c, 2, 1);
    RepMore(r.X, a - b, 2, 4);
    RepMore(r.Y, a + b, 2, 4);
    RepMore(r.Z, (d + d) + c, 3, 4);
    RepMore(r.T, (d + d) - c, 3, 4);
  }

  /** ge_add_r. */
  method AddR(r: Coords, p: Coords, q: Coords, ghost v: Point, ghost w: Point)
    requires r.Shape() && p.Shape() && q.Shape() && r.Arrays() !! p.Arrays() && r.Arrays() !! q.Arrays()
    requires p.Shows(v) && q.ShowsCached(w)
    modifies r.X, r.Y, r.Z, r.T
    ensures r.ShowsFactors(SumFactors(D, v, w))
  {
    hide Rep;
    AddProducts(r, p, q, v, w);
    AddSums(r, (v.y + v.x) * (w.y + w.x), (v.y - v.x) * (w.y - w.x), (w.t * (2 * D)) * v.t, v.z * w.z);
  }

  /** ge_add. */
  method GeAdd(r: Coords, p: Coords, q: Coords, ghost v: Point, ghost w: Point)
    requires r.Shape() && p.Shape() && q.Shape() && r.Arrays() !! p.Arrays()
    requires p.Shows(v) && q.ShowsCached(w)
    modifies r.X, r.Y, r.Z, r.T
    ensures r.Shows(Added(D, v, w))
  {
    hide Rep, SumFactors, Complete;
    var tmp := new Coords();
    AddR(tmp, p, q, v, w);
    P1p1ToP3(r, tmp, SumFactors(D, v, w));
  }

  /* ---- The ladder ---- */

  /** fe_0 and fe_1. */
  method SetSmall(h: array<int32>, v: bit)
    requires h.Length == 10
    modifies h
    ensures Rep(h, v, 1)
  {
    for i := 0 to 10
      invariant forall k | 0 <= k < i :: h[k] == 0
    {
      h[i] := 0;
    }
    if v == 1 {
      h[0] := 1;
    }
    CongSame(P, v);
  }

  /** ge_p3_0. */
  method SetNeutral(h: Coords)
    requires h.Shape()
    modifies h.X, h.Y, h.Z, h.T
    ensures h.Shows(NEUTRAL)
  {
    hide Rep;
    SetSmall(h.X, 0);
    SetSmall(h.Y, 1);
    SetSmall(h.Z, 1);
    SetSmall(h.T, 0);
  }

  /** ge_scalarmult. */
  method Scalarmult(h: Coords, scalar: seq<byte>, point: Coords, ghost a: Point)
    requires h.Shape() && point.Shape() && h.Arrays() !! point.Arrays() && |scalar| == 32 && point.Shows(a)
    modifies h.X, h.Y, h.Z, h.T
    ensures h.Shows(Ladder(scalar, a, 0))
  {
    hide Rep, Coords.Shows, Doubled, Added, ScalarBit, Ladder;
    LadderUnrolls(scalar, a, 0);
    var tmp := new Coords();
    var cached := new Coords();
    SetNeutral(h);
    var i := 254;
    while i >= 0
      invariant -1 <= i <= 254 && h.Shows(Ladder(scalar, a, i + 1)) && point.Shows(a)
    {
      ghost var was := Ladder(scalar, a, i + 1);
      LadderUnrolls(scalar, a, i);
      LadderStep(h, tmp, cached, point, ScalarBit(scalar, i), was, a);
      i := i - 1;
    }
  }

  /** Four fe_copy. */
  method CopyPoint(h: Coords, from: Coords, ghost a: Point)
    requires h.Shape() && from.Shape() && h.Arrays() !! from.Arrays() && from.Shows(a)
    modifies h.X, h.Y, h.Z, h.T
    ensures h.Shows(a)
  {
    hide Rep;
    RepCopy(h.X, from.X, a.x);
    RepCopy(h.Y, from.Y, a.y);
    RepCopy(h.Z, from.Z, a.z);
    RepCopy(h.T, from.T, a.t);
  }

  /** Four fe_cmov. */
  method MovePoint(h: Coords, from: Coords, b: bit, ghost a: Point, ghost a': Point)
    requires h.Shape() && from.Shape() && h.Arrays() !! from.Arrays() && h.Shows(a) && from.Shows(a')
    modifies h.X, h.Y, h.Z, h.T
    ensures h.Shows(if b == 1 then a' else a)
  {
    hide Rep;
    RepCmov(h.X, from.X, b, a.x, a'.x);
    RepCmov(h.Y, from.Y, b, a.y, a'.y);
    RepCmov(h.Z, from.Z, b, a.z, a'.z);
    RepCmov(h.T, from.T, b, a.t, a'.t);
  }

  /** One round: double, add to the side, and take the sum when the bit is set. */
  method LadderStep(h: Coords, tmp: Coords, cached: Coords, point: Coords, b: bit, ghost was: Point, ghost a: Point)
    requires h.Shape() && tmp.Shape() && cached.Shape() && point.Shape()
    requires h.Arrays() !! tmp.Arrays() !! cached.Arrays() !! point.Arrays()
    requires h.Shows(was) && point.Shows(a)
    modifies h.X, h.Y, h.Z, h.T, tmp.X, tmp.Y, tmp.Z, tmp.T, cached.X, cached.Y, cached.Z, cached.T
    ensures var twice := Doubled(was); h.Shows(if b == 1 then Added(D, twice, a) else twice)
  {
    hide Rep, Doubled, Added;
    ghost var twice := Doubled(was);
    P3Dbl(tmp, h, was);
    CopyPoint(h, tmp, twice);
    P3ToCached(cached, point, a);
    GeAdd(tmp, h, cached, twice, a);
    MovePoint(h, tmp, b, twice, Added(D, twice, a));
  }
}
