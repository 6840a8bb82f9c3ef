/** Points to bytes and back: what ge_frombytes_vartime accepts lies on the curve. */
module EdwardsBytes {
  import opened Bits
  import opened BitOps
  import opened Congruence
  import opened LittleEndian
  import opened FieldLimbs
  import opened FieldOps
  import opened FieldPower
  import opened FieldBytes
  import opened EdwardsCurve
  import opened EdwardsLadder
  import opened EdwardsOps

  /* ---- Constants ---- */

  const D_LIMBS: Fe := Fe(-10913610, 13857413, -15372611, 6949391, 114729,
    -8787816, -6275908, -3247719, -18696448, -12055116)

  const SQRTM1_LIMBS: Fe := Fe(-32595792, -7943725, 9377950, 3500415, 12389472,
    -272473, -25146209, -2005654, 326686, 11406482)

  /** A square root of -1. */
  const SQRTM1: int := Val(SQRTM1_LIMBS)

  lemma DLimbs()
    ensures Within(D_LIMBS, 1) && Cong(P, D, Val(D_LIMBS))
  {
    CongIntro(P, D, Val(D_LIMBS), (D - Val(D_LIMBS)) / P);
  }

  lemma RootOfMinusOne()
    ensures Within(SQRTM1_LIMBS, 1) && Cong(P, SQRTM1 * SQRTM1, -1)
  {
    CongIntro(P, SQRTM1 * SQRTM1, -1, (SQRTM1 * SQRTM1 + 1) / P);
  }

  /* ---- The decoded point ---- */

  /** u and v of u / v = x^2 at a given y. */
  function U(y: int): int {
    y * y - 1
  }

  function V(y: int): int {
    (y * y) * D + 1
  }

  /** u v^3 (u v^7)^((p-5)/8), the candidate for the square root of u / v. */
  function Candidate(y: int): int {
    var u, v := U(y), V(y);
    var v3 := (v * v) * v;
    (Pow(((v3 * v3) * v) * u, (P - 5) / 8) * v3) * u
  }

  /** The square of the candidate times v is u (u v^7)^((p-1)/4). */
  lemma CandidateSquared(y: int)
    ensures var c, v := Candidate(y), V(y); var w := U(y) * Pow(v, 7);
            (c * c) * v == U(y) * Pow(w, (P - 1) / 4)
  {
    hide Pow, U, V;
    var u, v, n := U(y), V(y), (P - 5) / 8;
    var v3 := (v * v) * v;
    var w := ((v3 * v3) * v) * u;
    var e := Pow(w, n);
    SeventhPower(v);
    assert u * ((v3 * v3) * v) == w;
    PowAdd(w, n, n);
    PowAdd(w, 2 * n, 1);
    PowOne(w);
    assert n + n == 2 * n && 2 * n + 1 == (P - 1) / 4;
    SquareTimes(e, v3, u, v);
  }

  lemma SeventhPower(v: int)
    ensures var v3 := (v * v) * v; Pow(v, 7) == (v3 * v3) * v
  {
    hide Pow;
    PowOne(v);
    PowAdd(v, 1, 1);
    PowAdd(v, 2, 1);
    PowAdd(v, 3, 3);
    PowAdd(v, 6, 1);
  }

  lemma SquareTimes(e: int, v3: int, u: int, v: int)
    ensures var c := (e * v3) * u; (c * c) * v == u * ((e * e) * (((v3 * v3) * v) * u))
  {
    SquareProduct(e * v3, u);
    SquareProduct(e, v3);
    var ee, vv, uu := e * e, v3 * v3, u * u;
    Rotate(ee, vv, uu, v);
    assert u * (ee * ((vv * v) * u)) == (u * u) * (ee * (vv * v)) by {
      Rotate2(u, ee, vv * v);
    }
  }

  lemma Rotate(a: int, b: int, c: int, d: int)
    ensures ((a * b) * c) * d == c * (a * (b * d))
  {
    assert ((a * b) * c) * d == (a * b) * (c * d);
    assert (a * b) * (c * d) == a * (b * (c * d)) == a * (c * (b * d));
    assert a * (c * (b * d)) == c * (a * (b * d));
  }

  lemma Rotate2(u: int, e: int, w: int)
    ensures u * (e * (w * u)) == (u * u) * (e * w)
  {
    assert e * (w * u) == (e * w) * u;
    assert u * ((e * w) * u) == (u * u) * (e * w);
  }

  /** x is a root at y: v x^2 is u. */
  ghost predicate IsRoot(x: int, y: int) {
    Cong(P, (x * x) * V(y), U(y))
  }

  /** A root gives a point of the curve. */
  lemma RootOnCurve(x: int, y: int)
    requires IsRoot(x, y)
    ensures OnCurve(P, D, Point(x, y, 1, x * y))
  {
    hide Cong;
    var xx, yy := x * x, y * y;
    var p := Point(x, y, 1, x * y);
    CongSame(P, x * y);
    CurveTerms(x, y);
    CongSym(P, xx * V(y), U(y));
    CongSame(P, xx - 1);
    CongSub(P, U(y), xx - 1, xx * V(y), xx - 1);
  }

  lemma CurveTerms(x: int, y: int)
    ensures U(y) - (x * x - 1) == y * y - x * x
    ensures (x * x) * V(y) - (x * x - 1) == 1 * 1 + D * ((x * y) * (x * y))
  {
    var xx, yy := x * x, y * y;
    SquareProduct(x, y);
    Distribute(yy * D, 1, xx);
    assert xx * (yy * D) == D * (xx * yy);
  }

  /** The other root. */
  lemma RootNegated(x: int, y: int)
    requires IsRoot(x, y)
    ensures IsRoot(-x, y)
  {
    hide Cong;
    assert (-x) * (-x) == x * x;
  }

  /** A root of -u times the square root of -1 is a root of u. */
  lemma RootTurned(c: int, y: int)
    requires Cong(P, (c * c) * V(y), -U(y))
    ensures IsRoot(c * SQRTM1, y)
  {
    hide Cong, SQRTM1, U, V;
    RootOfMinusOne();
    TurnedSquare(P, SQRTM1, c, U(y), V(y));
  }

  lemma TurnedSquare(m: int, i: int, c: int, u: int, v: int)
    requires Cong(m, i * i, -1) && Cong(m, (c * c) * v, -u)
    ensures Cong(m, ((c * i) * (c * i)) * v, u)
  {
    hide Cong;
    var cc := c * c;
    SquareProduct(c, i);
    CongScale(m, i * i, -1, cc * v);
    CongScale(m, cc * v, -u, -1);
    assert (cc * (i * i)) * v == (cc * v) * (i * i);
    CongTrans(m, (cc * v) * (i * i), (cc * v) * -1, -u * -1);
  }

  lemma {:induction false} CongPow(a: int, b: int, n: nat)
    requires Cong(P, a, b)
    ensures Cong(P, Pow(a, n), Pow(b, n))
  {
    hide Cong;
    if n == 0 {
      CongSame(P, 1);
    } else {
      CongPow(a, b, n - 1);
      CongMul(P, a, Pow(a, n - 1), b, Pow(b, n - 1));
    }
  }

  method RepPow(h: array<int32>, f: array<int32>, ghost a: int)
    requires h.Length == 10 && f.Length == 10 && Rep(f, a, 4)
    modifies h
    ensures Rep(h, Pow(a, (P - 5) / 8), 1)
  {
    hide Cong, Within, F, Val, Pow;
    ghost var x := Val(F(f));
    Pow22523(h, f);
    CongPow(a, x, (P - 5) / 8);
    CongTrans(P, Pow(a, (P - 5) / 8), Pow(x, (P - 5) / 8), Val(F(h)));
  }

  /** fe_neg. */
  method Neg(h: array<int32>, f: array<int32>, ghost a: int)
    requires h.Length == 10 && f.Length == 10 && Rep(f, a, 1)
    modifies h
    ensures Rep(h, -a, 1)
  {
    hide Val, Limb, F, Cong, Plus, Minus;
    ghost var x, zero := F(f), Fe(0, 0, 0, 0, 0, 0, 0, 0, 0, 0);
    NegBounds(x);
    LimbsOf(f);
    for i := 0 to 10
      invariant forall k | 0 <= k < i :: h[k] == Limb(Minus(zero, x), k)
      invariant forall k | i <= k < 10 :: f[k] == Limb(x, k)
    {
      NegLimb(x, i);
      h[i] := -(f[i] as int);
    }
    LimbsAre(h, Minus(zero, x));
    CongSame(P, 0);
    CongSub(P, 0, a, 0, Val(x));
  }

  lemma NegBounds(x: Fe)
    requires Within(x, 1)
    ensures var zero := Fe(0, 0, 0, 0, 0, 0, 0, 0, 0, 0);
            Within(Minus(zero, x), 1) && AllBounded(x, 0x3fff_ffff) && Val(zero) == 0
  {
    hide Val;
    ZeroValue();
  }

  lemma ZeroValue()
    ensures Val(Fe(0, 0, 0, 0, 0, 0, 0, 0, 0, 0)) == 0
  {
  }

  lemma NegLimb(x: Fe, k: nat)
    requires k < 10 && AllBounded(x, 0x3fff_ffff)
    ensures -0x8000_0000 < -Limb(x, k) == Limb(Minus(Fe(0, 0, 0, 0, 0, 0, 0, 0, 0, 0), x), k) < 0x8000_0000
  {
    hide Val;
  }

  /** Whether the limbs stand for a multiple of 2^255 - 19. */
  method RepIsZero(f: array<int32>, ghost a: int, ghost k: int) returns (zero: bool)
    requires f.Length == 10 && Rep(f, a, k) && k <= 4
    ensures zero <==> Cong(P, a, 0)
  {
    hide Within, F, Val, Cong;
    RepMore(f, a, k, 4);
    zero := IsZero(f);
    ZeroMod(a, Val(F(f)));
  }

  lemma ZeroMod(a: int, x: int)
    requires Cong(P, a, x)
    ensures x % P == 0 <==> Cong(P, a, 0)
  {
    hide Cong;
    CongSameMod(P, a, x);
    if a % P == 0 {
      CongIntro(P, a, 0, a / P);
    }
    if Cong(P, a, 0) {
      CongSameMod(P, a, 0);
    }
  }

  /** The parity of the residue. */
  method RepIsNeg(f: array<int32>, ghost a: int) returns (neg: bit)
    requires f.Length == 10 && Rep(f, a, 1)
    ensures neg == a % P % 2
  {
    hide Within, F, Val, Cong;
    RepMore(f, a, 1, 4);
    neg := IsNeg(f);
    CongSameMod(P, a, Val(F(f)));
  }

  lemma ParityFlips(a: int)
    requires a % P != 0
    ensures -a % P == P - a % P && -a % P % 2 == 1 - a % P % 2
  {
    var q, r := a / P, a % P;
    assert a == P * q + r;
    DivUnique(-a, P, -q - 1, P - r);
  }

  /* ---- Decoding ---- */

  method CurveD() returns (d: array<int32>)
    ensures d.Length == 10 && fresh(d) && Rep(d, D, 4)
  {
    hide Cong, Within, Val;
    d := new int32[10];
    DLimbs();
    Store(d, D_LIMBS);
    WithinMore(D_LIMBS, 1, 4);
  }

  method RootLimbs() returns (i: array<int32>)
    ensures i.Length == 10 && fresh(i) && Rep(i, SQRTM1, 4)
  {
    hide Cong, Within, Val;
    i := new int32[10];
    RootOfMinusOne();
    Store(i, SQRTM1_LIMBS);
    WithinMore(SQRTM1_LIMBS, 1, 4);
    CongSame(P, Val(SQRTM1_LIMBS));
  }

  /** u and v of the point. */
  method FindRatio(h: Coords, u: array<int32>, v: array<int32>, ghost y: int)
    requires h.Shape() && u.Length == 10 && v.Length == 10 && u != v && {u, v} !! h.Arrays()
    requires Rep(h.Y, y, 1) && Rep(h.Z, 1, 1)
    modifies u, v
    ensures Rep(u, U(y), 2) && Rep(v, V(y), 2)
  {
    hide Rep;
    var d := CurveD();
    RepMore(h.Y, y, 1, 4);
    RepSq(u, h.Y, y);
    RepMul(v, u, d, y * y, D);
    RepSub(u, u, h.Z, y * y, 1, 1, 1);
    RepAdd(v, v, h.Z, (y * y) * D, 1, 1, 1);
  }

  /** The candidate for x. */
  method FindCandidate(x: array<int32>, u: array<int32>, v: array<int32>, ghost y: int)
    requires x.Length == 10 && u.Length == 10 && v.Length == 10 && x != u && x != v
    requires Rep(u, U(y), 2) && Rep(v, V(y), 2)
    modifies x
    ensures Rep(x, Candidate(y), 1)
  {
    hide Rep, Pow, U, V;
    ghost var uu, vv := U(y), V(y);
    ghost var w := (vv * vv) * vv;
    var v3 := new int32[10];
    RepMore(u, uu, 2, 4);
    RepMore(v, vv, 2, 4);
    RepSq(v3, v, vv);
    RepMul(v3, v3, v, vv * vv, vv);
    RepSq(x, v3, w);
    RepMul(x, x, v, w * w, vv);
    RepMul(x, x, u, (w * w) * vv, uu);
    RepPow(x, x, ((w * w) * vv) * uu);
    RepMore(x, Pow(((w * w) * vv) * uu, (P - 5) / 8), 1, 4);
    RepMul(x, x, v3, Pow(((w * w) * vv) * uu, (P - 5) / 8), w);
    RepMul(x, x, u, Pow(((w * w) * vv) * uu, (P - 5) / 8) * w, uu);
  }

  /** Tries the candidate and its turn by the square root of -1. */
  method FindRoot(x: array<int32>, u: array<int32>, v: array<int32>, ghost y: int, ghost c: int)
    returns (ok: bool, ghost root: int)
    requires x.Length == 10 && u.Length == 10 && v.Length == 10 && x != u && x != v
    requires Rep(u, U(y), 2) && Rep(v, V(y), 2) && Rep(x, c, 1)
    modifies x
    ensures ok <==> Cong(P, (c * c) * V(y), U(y)) || Cong(P, (c * c) * V(y), -U(y))
    ensures ok ==> Rep(x, root, 1) && IsRoot(root, y)
  {
    hide Rep, U, V, Cong, SQRTM1;
    ghost var uu, vv := U(y), V(y);
    root := c;
    var vxx, check := new int32[10], new int32[10];
    RepMore(x, c, 1, 4);
    RepMore(v, vv, 2, 4);
    RepSq(vxx, x, c);
    RepMul(vxx, vxx, v, c * c, vv);
    RepSub(check, vxx, u, (c * c) * vv, uu, 1, 2);
    ok := RepIsZero(check, (c * c) * vv - uu, 3);
    CongZero(P, (c * c) * vv, uu);
    if !ok {
      RepAdd(check, vxx, u, (c * c) * vv, uu, 1, 2);
      ok := RepIsZero(check, (c * c) * vv + uu, 3);
      CongZero(P, (c * c) * vv, -uu);
      assert (c * c) * vv - (-uu) == (c * c) * vv + uu;
      if !ok {
        return;
      }
      var i := RootLimbs();
      RepMul(x, x, i, c, SQRTM1);
      RootTurned(c, y);
      root := c * SQRTM1;
    }
  }

  /** Takes the root of the wanted parity, if the root is not zero. */
  method FixSign(x: array<int32>, sign: bit, ghost y: int, ghost c: int) returns (ghost root: int)
    requires x.Length == 10 && Rep(x, c, 1) && IsRoot(c, y)
    modifies x
    ensures Rep(x, root, 1) && IsRoot(root, y) && (root % P % 2 == sign || root % P == 0)
  {
    hide Rep, IsRoot;
    root := c;
    var neg := RepIsNeg(x, c);
    if neg != sign {
      Neg(x, x, c);
      RootNegated(c, y);
      root := -c;
      if c % P != 0 {
        ParityFlips(c);
      } else {
        ZeroNegated(c);
      }
    }
  }

  lemma ZeroNegated(c: int)
    requires c % P == 0
    ensures -c % P == 0
  {
    DivUnique(-c, P, -(c / P), 0);
  }

  /** ge_frombytes_vartime: 0 with a point of the curve, or -1. */
  method Decode(h: Coords, s: seq<byte>) returns (r: int, ghost p: Point)
    requires h.Shape() && |s| == 32
    modifies h.X, h.Y, h.Z, h.T
    ensures var y := Num(s) % TWO255; var c := Candidate(y);
            r == if Cong(P, (c * c) * V(y), U(y)) || Cong(P, (c * c) * V(y), -U(y)) then 0 else -1
    ensures r == 0 ==> h.Shows(p) && OnCurve(P, D, p) && p.z == 1 && p.y == Num(s) % TWO255
    ensures r == 0 ==> p.x % P % 2 == s[31] as int / 128 || p.x % P == 0
  {
    hide Rep, Cong, U, V, Candidate, Num, OnCurve, IsRoot;
    ghost var y := Num(s) % TWO255;
    p := NEUTRAL;
    LoadY(h.Y, s);
    SetSmall(h.Z, 1);
    var u, v := new int32[10], new int32[10];
    FindRatio(h, u, v, y);
    FindCandidate(h.X, u, v, y);
    var ok;
    ghost var x := Candidate(y);
    ok, x := FindRoot(h.X, u, v, y, x);
    if !ok {
      return -1, p;
    }
    x := FixSign(h.X, s[31] / 128, y, x);
    RepMore(h.X, x, 1, 4);
    RepMore(h.Y, y, 1, 4);
    RepMul(h.T, h.X, h.Y, x, y);
    RootOnCurve(x, y);
    p := Point(x, y, 1, x * y);
    r := 0;
  }

  method LoadY(h: array<int32>, s: seq<byte>)
    requires h.Length == 10 && |s| == 32
    modifies h
    ensures Rep(h, Num(s) % TWO255, 1)
  {
    hide Num, Cong, Within, F, Val;
    FromBytes(h, s);
  }

  /* ---- Encoding ---- */

  /** ge_p3_tobytes: the canonical y with the parity of x as the top bit, both divided by z as powers. */
  method Encode(s: array<byte>, h: Coords, ghost p: Point)
    requires s.Length == 32 && h.Shape() && h.Shows(p)
    requires (s as object) !in {h.X as object, h.Y, h.Z, h.T}
    modifies s
    ensures var inv := Pow(p.z, P - 2);
            Num(s[..]) == (p.y * inv) % P + TWO255 * ((p.x * inv) % P % 2)
  {
    hide Rep, Pow, Num;
    ghost var inv := Pow(p.z, P - 2);
    var recip, x, y := new int32[10], new int32[10], new int32[10];
    RepInvert(recip, h.Z, p.z);
    RepMore(h.X, p.x, 1, 4);
    RepMore(h.Y, p.y, 1, 4);
    RepMul(x, h.X, recip, p.x, inv);
    RepMul(y, h.Y, recip, p.y, inv);
    RepToBytes(s, y, p.y * inv);
    ghost var canonical := s[..];
    var neg := RepIsNeg(x, p.x * inv);
    TopByte(canonical);
    s[31] := FlipTop(s[31], neg);
    assert s[..] == canonical[31 := canonical[31] as int + 128 * (neg as int)];
    TopAdds(canonical, neg);
  }

  method RepInvert(h: array<int32>, f: array<int32>, ghost a: int)
    requires h.Length == 10 && f.Length == 10 && Rep(f, a, 1)
    modifies h
    ensures Rep(h, Pow(a, P - 2), 4)
  {
    hide Cong, Within, F, Val, Pow;
    ghost var x := Val(F(f));
    WithinMore(F(f), 1, 4);
    Invert(h, f);
    CongPow(a, x, P - 2);
    CongTrans(P, Pow(a, P - 2), Pow(x, P - 2), Val(F(h)));
    WithinMore(F(h), 1, 4);
  }

  method RepToBytes(s: array<byte>, f: array<int32>, ghost a: int)
    requires s.Length == 32 && f.Length == 10 && Rep(f, a, 4) && (s as object) != f
    modifies s
    ensures Num(s[..]) == a % P
  {
    hide Cong, Within, F, Val, Num;
    CongSameMod(P, a, Val(F(f)));
    ToBytes(s, f);
  }

  /** A canonical string leaves the top bit free. */
  lemma TopByte(s: seq<byte>)
    requires |s| == 32 && Num(s) < P
    ensures s[31] < 128
  {
    hide Num;
    TopSplit(s);
  }

  lemma TopSplit(s: seq<byte>)
    requires |s| == 32
    ensures Num(s) == Num(s[..31]) + TWO255 / 128 * (s[31] as int)
  {
    hide Num;
    NumSplit(s, 31);
    Power31();
    assert s[31..] == [s[31]];
    OneByte(s[31]);
  }

  lemma OneByte(b: byte)
    ensures Num([b]) == b
  {
    assert [b][1..] == [];
  }

  lemma Power31()
    ensures Power256(31) == TWO255 / 128
  {
    assert Power256(8) == 0x1_0000_0000_0000_0000;
    hide Power256;
    Power256Add(8, 8);
    Power256Add(16, 8);
    Seven();
    Power256Add(24, 7);
  }

  lemma Seven()
    ensures Power256(7) == 0x100_0000_0000_0000
  {
  }

  lemma TopAdds(s: seq<byte>, neg: bit)
    requires |s| == 32 && s[31] < 128
    ensures Num(s[31 := s[31] as int + 128 * (neg as int)]) == Num(s) + TWO255 * neg
  {
    hide Num;
    var t := s[31 := s[31] as int + 128 * (neg as int)];
    TopSplit(s);
    TopSplit(t);
    assert t[..31] == s[..31];
  }

  /** The top bit of a byte below 128 flipped by an exclusive or. */
  function FlipTop(b: byte, neg: bit): (r: byte)
    requires b < 128
    ensures r == b + 128 * neg
  {
    assert Pow2(7) == 128 && Pow2(8) == 256;
    XorIsSum(b, neg, 7, 8);
    Xor(b, neg * Pow2(7), 8)
  }

  /** A multiple of a decoded point is a point of the curve. */
  method MultiplyDecoded(h: Coords, point: Coords, scalar: seq<byte>, s: seq<byte>) returns (r: int, ghost p: Point)
    requires h.Shape() && point.Shape() && h.Arrays() !! point.Arrays() && |scalar| == 32 && |s| == 32
    modifies h.X, h.Y, h.Z, h.T, point.X, point.Y, point.Z, point.T
    ensures r == 0 ==> OnCurve(P, D, p) && h.Shows(Ladder(scalar, p, 0)) && OnCurve(P, D, Ladder(scalar, p, 0))
  {
    hide Coords.Shows, OnCurve, Ladder, Candidate, Num;
    r, p := Decode(point, s);
    if r == 0 {
      Scalarmult(h, scalar, point, p);
      LadderOnCurve(scalar, p, 0);
    }
  }
}
