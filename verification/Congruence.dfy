/** Congruence of integers. */
module Congruence {
  import opened Bits

  /** x and y differ by a multiple of m. */
  ghost predicate Cong(m: int, x: int, y: int) {
    exists k: int :: x == y + m * k
  }

  lemma CongIntro(m: int, x: int, y: int, k: int)
    requires x == y + m * k
    ensures Cong(m, x, y)
  {
  }

  lemma CongSame(m: int, x: int)
    ensures Cong(m, x, x)
  {
    CongIntro(m, x, x, 0);
  }

  lemma CongMod(m: int, x: int)
    requires m > 0
    ensures Cong(m, x % m, x)
  {
    assert x == m * (x / m) + x % m;
    Negate(m, x / m);
    CongIntro(m, x % m, x, -(x / m));
  }

  lemma Negate(m: int, k: int)
    ensures m * (-k) == -(m * k)
  {
  }

  lemma CongTrans(m: int, x: int, y: int, z: int)
    requires Cong(m, x, y) && Cong(m, y, z)
    ensures Cong(m, x, z)
  {
    var j: int :| x == y + m * j;
    var k: int :| y == z + m * k;
    Distribute(k, j, m);
    CongIntro(m, x, z, k + j);
  }

  lemma CongSym(m: int, x: int, y: int)
    requires Cong(m, x, y)
    ensures Cong(m, y, x)
  {
    var k: int :| x == y + m * k;
    Negate(m, k);
    CongIntro(m, y, x, -k);
  }

  lemma CongAdd(m: int, x: int, y: int, x': int, y': int)
    requires Cong(m, x, x') && Cong(m, y, y')
    ensures Cong(m, x + y, x' + y')
  {
    var j: int :| x == x' + m * j;
    var k: int :| y == y' + m * k;
    Distribute(j, k, m);
    CongIntro(m, x + y, x' + y', j + k);
  }

  lemma CongSub(m: int, x: int, y: int, x': int, y': int)
    requires Cong(m, x, x') && Cong(m, y, y')
    ensures Cong(m, x - y, x' - y')
  {
    var j: int :| x == x' + m * j;
    var k: int :| y == y' + m * k;
    Distribute(j, -k, m);
    Negate(m, k);
    CongIntro(m, x - y, x' - y', j - k);
  }

  lemma CongScale(m: int, x: int, y: int, r: int)
    requires Cong(m, x, y)
    ensures Cong(m, x * r, y * r) && Cong(m, r * x, r * y)
  {
    var k: int :| x == y + m * k;
    Distribute(y, m * k, r);
    Regroup(m, k, r);
    CongIntro(m, x * r, y * r, k * r);
    assert x * r == r * x && y * r == r * y;
  }

  lemma CongMul(m: int, x: int, y: int, x': int, y': int)
    requires Cong(m, x, x') && Cong(m, y, y')
    ensures Cong(m, x * y, x' * y')
  {
    hide Cong;
    CongScale(m, x, x', y);
    CongScale(m, y, y', x');
    CongTrans(m, x * y, x' * y, x' * y');
  }

  lemma CongMulAdd(m: int, x: int, y: int, a: int, r: int)
    requires Cong(m, x, y)
    ensures Cong(m, (x + a) * r, (y + a) * r)
  {
    hide Cong;
    CongSame(m, a);
    CongAdd(m, x, a, y, a);
    CongScale(m, x + a, y + a, r);
  }

  /** A difference is congruent to zero only for congruent numbers. */
  lemma CongZero(m: int, x: int, y: int)
    ensures Cong(m, x - y, 0) <==> Cong(m, x, y)
  {
    if Cong(m, x - y, 0) {
      var k: int :| x - y == 0 + m * k;
      CongIntro(m, x, y, k);
    }
    if Cong(m, x, y) {
      var k: int :| x == y + m * k;
      CongIntro(m, x - y, 0, k);
    }
  }

  lemma Distribute(a: int, b: int, r: int)
    ensures (a + b) * r == a * r + b * r && r * (a + b) == r * a + r * b
  {
  }

  lemma Regroup(p: int, k: int, r: int)
    ensures p * k * r == p * (k * r)
  {
  }

  /** Congruent numbers have the same remainder. */
  lemma CongSameMod(m: int, x: int, y: int)
    requires m > 0 && Cong(m, x, y)
    ensures x % m == y % m
  {
    var k: int :| x == y + m * k;
    var q, r := y / m, y % m;
    assert y == m * q + r;
    Distribute(q, k, m);
    DivUnique(x, m, q + k, r);
  }
}
