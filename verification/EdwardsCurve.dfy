/** Twisted Edwards curves in extended coordinates, over integers modulo any number and with any constant d.
    The one of RFC 8032 has modulus P and constant D. */
module EdwardsCurve {
  import opened Congruence
  import opened FieldLimbs

  /** The curve constant, -121665 / 121666 modulo 2^255 - 19. */
  const D: int := 0x5203_6cee_2b6f_fe73_8cc7_4079_7779_e898_0070_0a4d_4141_d8ab_75eb_4dca_1359_78a3

  lemma CurveConstant()
    ensures Cong(P, 121666 * D, -121665)
  {
    CongIntro(P, 121666 * D, -121665, (121666 * D + 121665) / P);
  }

  /** x / z, y / z with t = x y / z. */
  datatype Point = Point(x: int, y: int, z: int, t: int)

  const NEUTRAL: Point := Point(0, 1, 1, 0)

  /** -x^2 + y^2 = 1 + d x^2 y^2, with the shared denominator and t consistent. */
  ghost predicate OnCurve(modulus: int, coef: int, p: Point) {
    && Cong(modulus, p.x * p.y, p.z * p.t)
    && Cong(modulus, p.y * p.y - p.x * p.x, p.z * p.z + coef * (p.t * p.t))
  }

  /** The sum of section 5.1.4 of RFC 8032 in affine form, denominators multiplied out. */
  ghost predicate IsSum(modulus: int, coef: int, r: Point, p: Point, q: Point) {
    var k, m := p.z * q.z, coef * ((p.x * p.y) * (q.x * q.y));
    && Cong(modulus, r.x * (k * k + m), r.z * ((p.x * q.y + q.x * p.y) * k))
    && Cong(modulus, r.y * (k * k - m), r.z * ((p.y * q.y + p.x * q.x) * k))
  }

  /** The four factors a sum or a double is made of. */
  datatype Factors = Factors(e: int, h: int, g: int, f: int)

  function Complete(c: Factors): Point {
    Point(c.e * c.f, c.h * c.g, c.g * c.f, c.e * c.h)
  }

  function DoubleFactors(p: Point): Factors {
    var xx, yy, s := p.x * p.x, p.y * p.y, p.x + p.y;
    var h, g := yy + xx, yy - xx;
    Factors(s * s - h, h, g, 2 * (p.z * p.z) - g)
  }

  function SumFactors(coef: int, p: Point, q: Point): Factors {
    var a, b := (p.y + p.x) * (q.y + q.x), (p.y - p.x) * (q.y - q.x);
    var c, d := (q.t * (2 * coef)) * p.t, p.z * q.z;
    Factors(a - b, a + b, (d + d) + c, (d + d) - c)
  }

  function Doubled(p: Point): Point {
    Complete(DoubleFactors(p))
  }

  function Added(coef: int, p: Point, q: Point): Point {
    Complete(SumFactors(coef, p, q))
  }

  /* ---- Small identities ---- */

  lemma Assoc4(a: int, b: int, c: int, d: int)
    ensures (a * b) * (c * d) == (a * c) * (b * d) && (a * b) * (c * d) == (a * d) * (b * c)
  {
    assert (a * b) * (c * d) == a * (b * (c * d));
    assert (a * c) * (b * d) == a * (b * (c * d));
    assert (a * d) * (b * c) == a * (b * (c * d));
  }

  /** Any completed factors have consistent t. */
  lemma CompleteConsistent(modulus: int, c: Factors)
    ensures Cong(modulus, Complete(c).x * Complete(c).y, Complete(c).z * Complete(c).t)
  {
    Assoc4(c.e, c.f, c.h, c.g);
    Assoc4(c.g, c.f, c.e, c.h);
    CongSame(modulus, (c.e * c.f) * (c.h * c.g));
    assert (c.e * c.f) * (c.h * c.g) == (c.g * c.f) * (c.e * c.h);
  }

  /** The squares of completed factors. */
  lemma CompleteSquares(c: Factors)
    ensures var p := Complete(c);
            && p.x * p.x == (c.e * c.e) * (c.f * c.f) && p.y * p.y == (c.h * c.h) * (c.g * c.g)
            && p.z * p.z == (c.g * c.g) * (c.f * c.f) && p.t * p.t == (c.e * c.e) * (c.h * c.h)
  {
    SquareProduct(c.h, c.g);
    SquareProduct(c.e, c.f);
    SquareProduct(c.g, c.f);
    SquareProduct(c.e, c.h);
  }

  lemma SquareProduct(a: int, b: int)
    ensures (a * b) * (a * b) == (a * a) * (b * b)
  {
    Assoc4(a, b, a, b);
  }

  /* ---- Doubling ---- */

  lemma DoubleSquares(x: int, y: int)
    ensures (x + y) * (x + y) - (y * y + x * x) == 2 * (x * y)
    ensures (y * y + x * x) * (y * y + x * x) == (y * y - x * x) * (y * y - x * x) + (2 * (x * y)) * (2 * (x * y))
  {
    SumSquare(x, y);
    SumDifference(y * y, x * x);
    SquareProduct(x, y);
  }

  lemma SumSquare(x: int, y: int)
    ensures (x + y) * (x + y) == x * x + 2 * (x * y) + y * y
  {
  }

  lemma SumDifference(a: int, b: int)
    ensures (a + b) * (a + b) == (a - b) * (a - b) + 4 * (b * a) && a * a - b * b == (a - b) * (a + b)
  {
  }

  lemma DoubleTarget(coef: int, gg: int, ee: int, ff: int)
    ensures (gg + ee) * gg - ee * ff - (gg * ff + coef * (ee * (gg + ee))) == (gg + ee) * (gg - ff - coef * ee)
  {
    Distribute(gg, ee, gg);
    Distribute(gg, ee, ff);
    Distribute(gg, ee, ee);
    Distribute(gg - ff, -(coef * ee), gg + ee);
    Distribute(gg, -ff, gg + ee);
    assert (gg + ee) * (coef * ee) == coef * (ee * (gg + ee));
  }

  /** The curve equation of a double, in the squares of its factors. */
  lemma DoubleEquation(modulus: int, coef: int, gg: int, ee: int, ff: int)
    requires Cong(modulus, gg - ff, coef * ee)
    ensures Cong(modulus, (gg + ee) * gg - ee * ff, gg * ff + coef * (ee * (gg + ee)))
  {
    hide Cong;
    DoubleTarget(coef, gg, ee, ff);
    CongZero(modulus, gg - ff, coef * ee);
    CongScale(modulus, gg - ff - coef * ee, 0, gg + ee);
    CongZero(modulus, (gg + ee) * gg - ee * ff, gg * ff + coef * (ee * (gg + ee)));
  }

  /** g^2 - f^2 is d e^2 when g is z^2 + d t^2 and the square of n = x y is that of z t. */
  lemma DoubleCore(modulus: int, coef: int, zz: int, tt: int, n: int, g: int, f: int)
    requires Cong(modulus, g, zz + coef * tt) && Cong(modulus, n * n, zz * tt) && f == 2 * zz - g
    ensures Cong(modulus, g * g - f * f, coef * ((2 * n) * (2 * n)))
  {
    hide Cong;
    SumDifference(g, f);
    CongSame(modulus, zz);
    CongSub(modulus, g, zz, zz + coef * tt, zz);
    CongScale(modulus, g - zz, coef * tt, 4 * zz);
    CongScale(modulus, n * n, zz * tt, 4 * coef);
    CongSym(modulus, 4 * coef * (n * n), 4 * coef * (zz * tt));
    FourTimes(g, zz, f);
    assert coef * ((2 * n) * (2 * n)) == 4 * coef * (n * n) by {
      assert (2 * n) * (2 * n) == 4 * (n * n);
    }
    assert 4 * zz * (coef * tt) == 4 * coef * (zz * tt);
    CongTrans(modulus, g * g - f * f, 4 * coef * (zz * tt), 4 * coef * (n * n));
  }

  lemma FourTimes(g: int, zz: int, f: int)
    requires f == 2 * zz - g
    ensures (g - f) * (g + f) == 4 * zz * (g - zz)
  {
    assert g + f == 2 * zz && g - f == 2 * (g - zz);
  }

  /** Doubling stays on the curve. */
  lemma DoubledOnCurve(modulus: int, coef: int, p: Point)
    requires OnCurve(modulus, coef, p)
    ensures OnCurve(modulus, coef, Doubled(p))
  {
    hide Cong;
    var c := DoubleFactors(p);
    var n := p.x * p.y;
    CongMul(modulus, n, n, p.z * p.t, p.z * p.t);
    SquareProduct(p.z, p.t);
    DoubleCore(modulus, coef, p.z * p.z, p.t * p.t, n, c.g, c.f);
    DoubleSquares(p.x, p.y);
    assert c.e == 2 * n;
    DoubleEquation(modulus, coef, c.g * c.g, c.e * c.e, c.f * c.f);
    CompleteConsistent(modulus, c);
    CompleteSquares(c);
  }

  /** Doubling is adding a point to itself. */
  lemma DoubledIsSum(modulus: int, coef: int, p: Point)
    requires OnCurve(modulus, coef, p)
    ensures IsSum(modulus, coef, Doubled(p), p, p)
  {
    hide Cong;
    var c := DoubleFactors(p);
    DoubleSquares(p.x, p.y);
    var k, n := p.z * p.z, p.x * p.y;
    var m := coef * ((p.x * p.y) * (p.x * p.y));
    var dt := coef * (p.t * p.t);
    CongMul(modulus, n, n, p.z * p.t, p.z * p.t);
    SquareProduct(p.z, p.t);
    CongScale(modulus, n * n, k * (p.t * p.t), coef);
    assert coef * (k * (p.t * p.t)) == k * dt;
    CongSame(modulus, 2 * k);
    CongSub(modulus, 2 * k, c.g, 2 * k, k + dt);
    DoubleRatio(modulus, c, k, m, dt);
    assert p.x * p.y + p.x * p.y == c.e;
  }

  /** x and y of completed factors over a common denominator. */
  lemma DoubleRatio(modulus: int, c: Factors, k: int, m: int, dt: int)
    requires Cong(modulus, m, k * dt) && Cong(modulus, c.g, k + dt) && Cong(modulus, c.f, k - dt)
    ensures Cong(modulus, (c.e * c.f) * (k * k + m), (c.g * c.f) * (c.e * k))
    ensures Cong(modulus, (c.h * c.g) * (k * k - m), (c.g * c.f) * (c.h * k))
  {
    hide Cong;
    CongSame(modulus, k * k);
    CongSame(modulus, k);
    CongAdd(modulus, k * k, m, k * k, k * dt);
    CongSub(modulus, k * k, m, k * k, k * dt);
    Distribute(k, dt, k);
    Distribute(k, -dt, k);
    CongMul(modulus, k, c.g, k, k + dt);
    CongMul(modulus, k, c.f, k, k - dt);
    CongSym(modulus, k * c.g, k * (k + dt));
    CongSym(modulus, k * c.f, k * (k - dt));
    assert k * (k - dt) == k * k - k * dt;
    CongTrans(modulus, k * k + m, k * (k + dt), k * c.g);
    CongTrans(modulus, k * k - m, k * (k - dt), k * c.f);
    CongScale(modulus, k * k + m, k * c.g, c.e * c.f);
    CongScale(modulus, k * k - m, k * c.f, c.h * c.g);
    Assoc4(c.e, c.f, k, c.g);
    Assoc4(c.g, c.f, c.e, k);
    Assoc4(c.h, c.g, k, c.f);
    Assoc4(c.g, c.f, c.h, k);
    assert (c.e * c.f) * (k * c.g) == (c.g * c.f) * (c.e * k);
    assert (c.h * c.g) * (k * c.f) == (c.g * c.f) * (c.h * k);
  }

  /* ---- Addition ---- */

  /** Halves of the factors of a sum. */
  lemma SumHalves(coef: int, p: Point, q: Point)
    ensures var c := SumFactors(coef, p, q); var u, v := p.z * q.z, coef * (p.t * q.t);
            && c.e == 2 * (p.x * q.y + q.x * p.y) && c.h == 2 * (p.y * q.y + p.x * q.x)
            && c.g == 2 * (u + v) && c.f == 2 * (u - v)
  {
    CrossTerms(p.x, p.y, q.x, q.y);
    assert (q.t * (2 * coef)) * p.t == 2 * (coef * (p.t * q.t));
  }

  lemma CrossTerms(x: int, y: int, x': int, y': int)
    ensures (y + x) * (y' + x') - (y - x) * (y' - x') == 2 * (x * y' + x' * y)
    ensures (y + x) * (y' + x') + (y - x) * (y' - x') == 2 * (y * y' + x * x')
  {
    Distribute(y, x, y' + x');
    Distribute(y', x', y);
    Distribute(y', x', x);
    Distribute(y, -x, y' - x');
    Distribute(y', -x', y);
    Distribute(y', -x', x);
  }

  lemma SumSquares(x: int, y: int, x': int, y': int)
    ensures var e, h := x * y' + x' * y, y * y' + x * x';
            var n, n', w, w' := y * y - x * x, y' * y' - x' * x', x * x + y * y, x' * x' + y' * y';
            && h * h - e * e == n * n' && h * h + e * e == w * w' + 4 * ((x * y) * (x' * y'))
            && e * h == (x * y) * w' + (x' * y') * w
  {
    var a, b, c, d := y * y', x * x', x * y', x' * y;
    SumSquare(a, b);
    SumSquare(c, d);
    SquareProduct(y, y');
    SquareProduct(x, x');
    SquareProduct(x, y');
    SquareProduct(x', y);
    Assoc4(y, y', x, x');
    Assoc4(x, y', x', y);
    DistributeFour(y * y, x * x, y' * y', x' * x');
    CrossProduct(x, y, x', y');
  }

  lemma DistributeFour(a: int, b: int, c: int, d: int)
    ensures (a - b) * (c - d) == a * c - a * d - b * c + b * d
    ensures (b + a) * (d + c) == a * c + a * d + b * c + b * d
  {
  }

  lemma CrossProduct(x: int, y: int, x': int, y': int)
    ensures (x * y' + x' * y) * (y * y' + x * x') == (x * y) * (x' * x' + y' * y') + (x' * y') * (x * x + y * y)
  {
    var a, b, c, d := y * y', x * x', x * y', x' * y;
    Distribute(c, d, a + b);
    Distribute(a, b, c);
    Distribute(a, b, d);
    Assoc4(x, y', y, y');
    Assoc4(x, y', x, x');
    Assoc4(x', y, y, y');
    Assoc4(x', y, x, x');
    Distribute(x' * x', y' * y', x * y);
    Distribute(x * x, y * y, x' * y');
  }

  /** Adding gives the Edwards sum. */
  lemma AddedIsSum(modulus: int, coef: int, p: Point, q: Point)
    requires OnCurve(modulus, coef, p) && OnCurve(modulus, coef, q)
    ensures IsSum(modulus, coef, Added(coef, p, q), p, q)
  {
    hide Cong;
    var c := SumFactors(coef, p, q);
    SumHalves(coef, p, q);
    var k, v := p.z * q.z, coef * (p.t * q.t);
    var m := coef * ((p.x * p.y) * (q.x * q.y));
    CongMul(modulus, p.x * p.y, q.x * q.y, p.z * p.t, q.z * q.t);
    Assoc4(p.z, p.t, q.z, q.t);
    CongScale(modulus, (p.x * p.y) * (q.x * q.y), k * (p.t * q.t), coef);
    assert coef * (k * (p.t * q.t)) == k * v;
    var half := Factors(p.x * q.y + q.x * p.y, p.y * q.y + p.x * q.x, k + v, k - v);
    CongSame(modulus, k + v);
    CongSame(modulus, k - v);
    DoubleRatio(modulus, half, k, m, v);
    ScaleRatio(modulus, half, c, k, m);
  }

  /** Doubling all factors keeps the ratios. */
  lemma ScaleRatio(modulus: int, half: Factors, c: Factors, k: int, m: int)
    requires c.e == 2 * half.e && c.h == 2 * half.h && c.g == 2 * half.g && c.f == 2 * half.f
    requires Cong(modulus, (half.e * half.f) * (k * k + m), (half.g * half.f) * (half.e * k))
    requires Cong(modulus, (half.h * half.g) * (k * k - m), (half.g * half.f) * (half.h * k))
    ensures Cong(modulus, (c.e * c.f) * (k * k + m), (c.g * c.f) * (half.e * k))
    ensures Cong(modulus, (c.h * c.g) * (k * k - m), (c.g * c.f) * (half.h * k))
  {
    hide Cong;
    Quadruple(half.e, half.f);
    Quadruple(half.g, half.f);
    Quadruple(half.h, half.g);
    CongScale(modulus, (half.e * half.f) * (k * k + m), (half.g * half.f) * (half.e * k), 4);
    CongScale(modulus, (half.h * half.g) * (k * k - m), (half.g * half.f) * (half.h * k), 4);
    Regroup(4, half.e * half.f, k * k + m);
    Regroup(4, half.h * half.g, k * k - m);
    Regroup(4, half.g * half.f, half.e * k);
    Regroup(4, half.g * half.f, half.h * k);
  }

  lemma Quadruple(a: int, b: int)
    ensures (2 * a) * (2 * b) == 4 * (a * b)
  {
  }

  /** The exact part: what the curve equation of the sum asks, in the parts of both points. */
  lemma SumTarget(hh: int, ee: int, u: int, v: int, nn: int, s: int)
    requires hh - ee == nn && hh + ee == s
    ensures var gg, ff := (u + v) * (u + v), (u - v) * (u - v);
            && hh * gg - ee * ff == nn * (u * u + v * v) + 2 * (u * v) * s
            && gg * ff == (u * u - v * v) * (u * u - v * v)
  {
    var gg, ff := (u + v) * (u + v), (u - v) * (u - v);
    SumSquare(u, v);
    SumSquare(u, -v);
    SquareProduct(u + v, u - v);
    Distribute(u, v, u - v);
    assert gg + ff == 2 * (u * u + v * v) && gg - ff == 4 * (u * v);
    HalfSums(hh, ee, gg, ff);
    TwiceProduct(nn, u * u + v * v);
    FourProduct(s, u * v);
  }

  lemma HalfSums(hh: int, ee: int, gg: int, ff: int)
    ensures 2 * (hh * gg - ee * ff) == (hh - ee) * (gg + ff) + (hh + ee) * (gg - ff)
  {
    Distribute(hh, -ee, gg + ff);
    Distribute(hh, ee, gg - ff);
    Distribute(gg, ff, hh);
    Distribute(gg, ff, ee);
    Distribute(gg, -ff, hh);
    Distribute(gg, -ff, ee);
  }

  lemma TwiceProduct(a: int, b: int)
    ensures a * (2 * b) == 2 * (a * b)
  {
  }

  lemma FourProduct(a: int, b: int)
    ensures a * (4 * b) == 2 * (2 * b * a)
  {
  }

  /** The square of e h = m w' + m' w, where w^2 = n^2 + 4 m^2. */
  lemma CrossSquare(m: int, m': int, w: int, w': int, nn: int, nn': int)
    requires w * w == nn + 4 * (m * m) && w' * w' == nn' + 4 * (m' * m')
    ensures var eh := m * w' + m' * w;
            eh * eh == (m * m) * nn' + (m' * m') * nn + 2 * (m * m') * (w * w' + 4 * (m * m'))
  {
    var a, b := m * w', m' * w;
    SumSquare(a, b);
    SquareProduct(m, w');
    SquareProduct(m', w);
    Assoc4(m, w', m', w);
    SquareProduct(m, m');
    Distribute(nn', 4 * (m' * m'), m * m);
    Distribute(nn, 4 * (m * m), m' * m');
    Distribute(w * w', 4 * (m * m'), 2 * (m * m'));
    assert (m * m') * (w' * w) == (m * m') * (w * w');
    assert (m * m) * (4 * (m' * m')) == 4 * ((m * m) * (m' * m'));
    assert (m' * m') * (4 * (m * m)) == 4 * ((m * m) * (m' * m'));
    assert 2 * (m * m') * (4 * (m * m')) == 8 * ((m * m') * (m * m'));
    assert 2 * (m * m') * (w * w') == 2 * ((m * m') * (w * w'));
  }

  lemma WSquare(x: int, y: int)
    ensures (x * x + y * y) * (x * x + y * y) == (y * y - x * x) * (y * y - x * x) + 4 * ((x * y) * (x * y))
  {
    SumDifference(y * y, x * x);
    SquareProduct(x, y);
  }

  lemma QuadIdentity(a: int, b: int, c: int, d: int)
    ensures ((a + b) * (c + d)) * (a * c + b * d) ==
            (a * c - b * d) * (a * c - b * d) + (a * b) * ((c + d) * (c + d)) + (c * d) * ((a + b) * (a + b))
  {
    var p, q, r, s := a * c, b * d, a * d, b * c;
    DistributeFour(a, b, c, -d);
    assert (a + b) * (c + d) == p + r + s + q;
    SumSquare(c, d);
    SumSquare(a, b);
    SumSquare(p, -q);
    Distribute(p + r + s, q, p + q);
    Distribute(p + r, s, p + q);
    Distribute(p, r, p + q);
    Distribute(p, q, p);
    Distribute(p, q, q);
    Distribute(p, q, r);
    Distribute(p, q, s);
    Distribute(c * c + 2 * (c * d), d * d, a * b);
    Distribute(c * c, 2 * (c * d), a * b);
    Distribute(a * a + 2 * (a * b), b * b, c * d);
    Distribute(a * a, 2 * (a * b), c * d);
    Assoc4(a, b, c, c);
    Assoc4(a, b, c, d);
    Assoc4(a, b, d, d);
    Assoc4(c, d, a, a);
    Assoc4(c, d, b, b);
    assert p * s == (a * b) * (c * c);
    assert q * r == (a * b) * (d * d);
    assert p * r == (c * d) * (a * a);
    assert q * s == (c * d) * (b * b);
    assert p * q == (a * b) * (c * d);
  }

  /** The part of the equation in n1 n2 and squares, for values of the four parts up to congruence. */
  lemma QuadCong(modulus: int, a: int, b: int, c: int, d: int, n: int, n': int, x: int, x': int)
    requires Cong(modulus, n, a + b) && Cong(modulus, n', c + d) && Cong(modulus, x, a * b) && Cong(modulus, x', c * d)
    ensures Cong(modulus, (n * n') * (a * c + b * d),
              (a * c - b * d) * (a * c - b * d) + (x * (n' * n') + x' * (n * n)))
  {
    hide Cong;
    var z := ((a + b) * (c + d)) * (a * c + b * d);
    var y := (a * c - b * d) * (a * c - b * d);
    CongMul(modulus, n, n', a + b, c + d);
    CongScale(modulus, n * n', (a + b) * (c + d), a * c + b * d);
    CongMul(modulus, n', n', c + d, c + d);
    CongMul(modulus, n, n, a + b, a + b);
    CongMul(modulus, x, n' * n', a * b, (c + d) * (c + d));
    CongMul(modulus, x', n * n, c * d, (a + b) * (a + b));
    var s, t := x * (n' * n'), x' * (n * n);
    var s', t' := (a * b) * ((c + d) * (c + d)), (c * d) * ((a + b) * (a + b));
    CongAdd(modulus, s, t, s', t');
    CongSame(modulus, y);
    CongAdd(modulus, y, s + t, y, s' + t');
    QuadIdentity(a, b, c, d);
    assert z == y + (s' + t');
    CongSym(modulus, y + (s + t), z);
    CongTrans(modulus, (n * n') * (a * c + b * d), z, y + (s + t));
  }

  /** Adding stays on the curve: the halves of the factors. */
  lemma HalfOnCurve(modulus: int, coef: int, p: Point, q: Point, half: Factors)
    requires OnCurve(modulus, coef, p) && OnCurve(modulus, coef, q)
    requires half == Factors(p.x * q.y + q.x * p.y, p.y * q.y + p.x * q.x, p.z * q.z + coef * (p.t * q.t),
                       p.z * q.z - coef * (p.t * q.t))
    ensures OnCurve(modulus, coef, Complete(half))
  {
    hide Cong;
    var u, v := p.z * q.z, coef * (p.t * q.t);
    var n, n' := p.y * p.y - p.x * p.x, q.y * q.y - q.x * q.x;
    var m, m' := p.x * p.y, q.x * q.y;
    var w, w' := p.x * p.x + p.y * p.y, q.x * q.x + q.y * q.y;
    var hh, ee := half.h * half.h, half.e * half.e;
    var s := w * w' + 4 * (m * m');
    SumSquares(p.x, p.y, q.x, q.y);
    SumTarget(hh, ee, u, v, n * n', s);
    WSquare(p.x, p.y);
    WSquare(q.x, q.y);
    CrossSquare(m, m', w, w', n * n, n' * n');
    SquareProduct(half.e, half.h);
    var left := (n * n') * (u * u + v * v);
    var right := (u * u - v * v) * (u * u - v * v) + ((coef * (m * m)) * (n' * n') + (coef * (m' * m')) * (n * n));
    HalfParts(modulus, coef, p, q, u, v, n, n', m, m');
    var k := coef * (m * m');
    CongScale(modulus, u * v, k, 2 * s);
    CongAdd(modulus, left, (u * v) * (2 * s), right, k * (2 * s));
    assert 2 * (u * v) * s == (u * v) * (2 * s);
    SpreadCross(coef, m, m', n * n, n' * n', s);
    CompleteConsistent(modulus, half);
    CompleteSquares(half);
  }

  lemma SpreadCross(coef: int, m: int, m': int, nn: int, nn': int, s: int)
    ensures coef * ((m * m) * nn' + (m' * m') * nn + 2 * (m * m') * s) ==
            (coef * (m * m)) * nn' + (coef * (m' * m')) * nn + (coef * (m * m')) * (2 * s)
  {
    SpreadD(coef, (m * m) * nn', (m' * m') * nn, (m * m') * s);
    Regroup(coef, m * m, nn');
    Regroup(coef, m' * m', nn);
    Regroup(coef, m * m', 2 * s);
    assert (m * m') * (2 * s) == 2 * ((m * m') * s);
    assert 2 * (m * m') * s == 2 * ((m * m') * s);
  }

  lemma SpreadD(coef: int, a: int, b: int, c: int)
    ensures coef * (a + b + 2 * c) == coef * a + coef * b + coef * (2 * c)
  {
  }

  lemma HalfParts(modulus: int, coef: int, p: Point, q: Point, u: int, v: int, n: int, n': int, m: int, m': int)
    requires OnCurve(modulus, coef, p) && OnCurve(modulus, coef, q)
    requires u == p.z * q.z && v == coef * (p.t * q.t) && m == p.x * p.y && m' == q.x * q.y
    requires n == p.y * p.y - p.x * p.x && n' == q.y * q.y - q.x * q.x
    ensures Cong(modulus, u * v, coef * (m * m'))
    ensures Cong(modulus, (n * n') * (u * u + v * v),
              (u * u - v * v) * (u * u - v * v) + ((coef * (m * m)) * (n' * n') + (coef * (m' * m')) * (n * n)))
  {
    hide Cong;
    var a, b, c, d := p.z * p.z, coef * (p.t * p.t), q.z * q.z, coef * (q.t * q.t);
    SquareProduct(p.z, q.z);
    SquareProduct(coef, p.t * q.t);
    SquareProduct(p.t, q.t);
    Assoc4(coef, p.t * p.t, coef, q.t * q.t);
    assert u * u == a * c && v * v == b * d;
    CongMul(modulus, m, m, p.z * p.t, p.z * p.t);
    CongMul(modulus, m', m', q.z * q.t, q.z * q.t);
    SquareProduct(p.z, p.t);
    SquareProduct(q.z, q.t);
    CongScale(modulus, m * m, a * (p.t * p.t), coef);
    CongScale(modulus, m' * m', c * (q.t * q.t), coef);
    PullD(coef, a, p.t * p.t);
    PullD(coef, c, q.t * q.t);
    QuadCong(modulus, a, b, c, d, n, n', coef * (m * m), coef * (m' * m'));
    CongMul(modulus, m, m', p.z * p.t, q.z * q.t);
    Assoc4(p.z, p.t, q.z, q.t);
    CongScale(modulus, m * m', u * (p.t * q.t), coef);
    PullD(coef, u, p.t * q.t);
    CongSym(modulus, coef * (m * m'), u * v);
  }

  lemma PullD(coef: int, a: int, b: int)
    ensures coef * (a * b) == a * (coef * b)
  {
  }

  lemma AddedOnCurve(modulus: int, coef: int, p: Point, q: Point)
    requires OnCurve(modulus, coef, p) && OnCurve(modulus, coef, q)
    ensures OnCurve(modulus, coef, Added(coef, p, q))
  {
    hide Cong;
    var c := SumFactors(coef, p, q);
    SumHalves(coef, p, q);
    var half := Factors(p.x * q.y + q.x * p.y, p.y * q.y + p.x * q.x, p.z * q.z + coef * (p.t * q.t),
      p.z * q.z - coef * (p.t * q.t));
    HalfOnCurve(modulus, coef, p, q, half);
    var a, b := Complete(half), Complete(c);
    Quadruple(half.e, half.f);
    Quadruple(half.h, half.g);
    Quadruple(half.g, half.f);
    Quadruple(half.e, half.h);
    assert b.x == 4 * a.x && b.y == 4 * a.y && b.z == 4 * a.z && b.t == 4 * a.t;
    FourfoldProduct(modulus, a.x, a.y, a.z, a.t);
    FourfoldSquares(modulus, coef, a.x, a.y, a.z, a.t);
  }

  /** Scaling by four keeps each equation. */
  lemma FourfoldProduct(modulus: int, x: int, y: int, z: int, t: int)
    requires Cong(modulus, x * y, z * t)
    ensures Cong(modulus, (4 * x) * (4 * y), (4 * z) * (4 * t))
  {
    hide Cong;
    FourFour(x, y);
    FourFour(z, t);
    CongScale(modulus, x * y, z * t, 16);
  }

  lemma FourfoldSquares(modulus: int, coef: int, x: int, y: int, z: int, t: int)
    requires Cong(modulus, y * y - x * x, z * z + coef * (t * t))
    ensures Cong(modulus, (4 * y) * (4 * y) - (4 * x) * (4 * x), (4 * z) * (4 * z) + coef * ((4 * t) * (4 * t)))
  {
    hide Cong;
    FourFour(y, y);
    FourFour(x, x);
    FourFour(z, z);
    FourFour(t, t);
    CongScale(modulus, y * y - x * x, z * z + coef * (t * t), 16);
    assert coef * (16 * (t * t)) == 16 * (coef * (t * t));
  }

  lemma FourFour(a: int, b: int)
    ensures (4 * a) * (4 * b) == 16 * (a * b)
  {
  }

  lemma NeutralOnCurve(modulus: int, coef: int)
    ensures OnCurve(modulus, coef, NEUTRAL)
  {
    CongSame(modulus, 0);
    CongSame(modulus, 1);
  }
}
