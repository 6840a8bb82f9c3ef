/** Bitwise operators on n-bit numbers. */
module BitOps {
  import opened Bits

  function BitXor(a: nat, b: nat): bit {
    if a % 2 == b % 2 then 0 else 1
  }

  /** a ^ b on the n low bits. */
  function Xor(a: nat, b: nat, n: nat): (r: nat)
    ensures r < Pow2(n)
  {
    if n == 0 then 0 else BitXor(a, b) + 2 * Xor(a / 2, b / 2, n - 1)
  }

  lemma {:induction false} XorZero(a: nat, n: nat)
    requires a < Pow2(n)
    ensures Xor(a, 0, n) == a
  {
    if n > 0 {
      XorZero(a / 2, n - 1);
    }
  }

  lemma {:induction false} XorCommutes(a: nat, b: nat, n: nat)
    ensures Xor(a, b, n) == Xor(b, a, n)
  {
    if n > 0 {
      XorCommutes(a / 2, b / 2, n - 1);
    }
  }

  lemma {:induction false} XorSelf(a: nat, n: nat)
    ensures Xor(a, a, n) == 0
  {
    if n > 0 {
      XorSelf(a / 2, n - 1);
    }
  }

  lemma XorHalves(a: nat, b: nat, n: nat)
    requires n > 0
    ensures Xor(a, b, n) % 2 == BitXor(a, b) && Xor(a, b, n) / 2 == Xor(a / 2, b / 2, n - 1)
  {
  }

  lemma {:induction false} XorAssociates(a: nat, b: nat, c: nat, n: nat)
    ensures Xor(Xor(a, b, n), c, n) == Xor(a, Xor(b, c, n), n)
  {
    if n > 0 {
      XorAssociates(a / 2, b / 2, c / 2, n - 1);
      AssociateStep(a, b, c, n);
    }
  }

  lemma AssociateStep(a: nat, b: nat, c: nat, n: nat)
    requires n > 0
    requires Xor(Xor(a / 2, b / 2, n - 1), c / 2, n - 1) == Xor(a / 2, Xor(b / 2, c / 2, n - 1), n - 1)
    ensures Xor(Xor(a, b, n), c, n) == Xor(a, Xor(b, c, n), n)
  {
    hide Xor;
    var x, y := Xor(a, b, n), Xor(b, c, n);
    XorHalves(a, b, n);
    XorHalves(b, c, n);
    XorHalves(x, c, n);
    XorHalves(a, y, n);
    SameHalves(Xor(x, c, n), Xor(a, y, n));
  }

  lemma SameHalves(x: nat, y: nat)
    requires x % 2 == y % 2 && x / 2 == y / 2
    ensures x == y
  {
  }

  /** Xor with a fixed number is one-to-one. */
  lemma XorCancels(a: nat, b: nat, c: nat, n: nat)
    requires a < Pow2(n) && b < Pow2(n) && Xor(a, c, n) == Xor(b, c, n)
    ensures a == b
  {
    hide Xor;
    XorAssociates(a, c, c, n);
    XorAssociates(b, c, c, n);
    XorSelf(c, n);
    XorZero(a, n);
    XorZero(b, n);
  }

  /** a | b on the n low bits. */
  function Or(a: nat, b: nat, n: nat): (r: nat)
    ensures r < Pow2(n)
  {
    if n == 0 then 0 else (if a % 2 == 1 || b % 2 == 1 then 1 else 0) + 2 * Or(a / 2, b / 2, n - 1)
  }

  lemma {:induction false} OrCommutes(a: nat, b: nat, n: nat)
    ensures Or(a, b, n) == Or(b, a, n)
  {
    if n > 0 {
      OrCommutes(a / 2, b / 2, n - 1);
    }
  }

  /** a & b on the n low bits. */
  function And(a: nat, b: nat, n: nat): (r: nat)
    ensures r < Pow2(n)
  {
    if n == 0 then 0 else (if a % 2 == 1 && b % 2 == 1 then 1 else 0) + 2 * And(a / 2, b / 2, n - 1)
  }

  /** Or is a sum when b begins above the last bit of a. */
  lemma {:induction false} OrIsSum(a: nat, b: nat, k: nat, n: nat)
    requires a < Pow2(k) && a + b * Pow2(k) < Pow2(n)
    ensures Or(a, b * Pow2(k), n) == a + b * Pow2(k)
    decreases n
  {
    if n > 0 {
      if k == 0 {
        OrZero(b, n);
      } else {
        hide Or, Pow2;
        DoubledTail(b, k);
        HalvesBelow(a, b * Pow2(k - 1), k, n);
        OrIsSum(a / 2, b, k - 1, n - 1);
        OrDoubled(a, b * Pow2(k - 1), n);
      }
    }
  }

  lemma DoubledTail(b: nat, k: nat)
    requires k > 0
    ensures b * Pow2(k) == 2 * (b * Pow2(k - 1))
  {
  }

  lemma HalvesBelow(a: nat, p: nat, k: nat, n: nat)
    requires k > 0 && n > 0 && a < Pow2(k) && a + 2 * p < Pow2(n)
    ensures a / 2 < Pow2(k - 1) && a / 2 + p < Pow2(n - 1)
  {
  }

  lemma OrDoubled(a: nat, p: nat, n: nat)
    requires n > 0
    ensures Or(a, 2 * p, n) == a % 2 + 2 * Or(a / 2, p, n - 1)
  {
    hide Or;
    assert (2 * p) / 2 == p;
    OrHalves(a, 2 * p, n);
  }

  lemma OrHalves(a: nat, b: nat, n: nat)
    requires n > 0 && b % 2 == 0
    ensures Or(a, b, n) == a % 2 + 2 * Or(a / 2, b / 2, n - 1)
  {
  }

  lemma {:induction false} OrZero(b: nat, n: nat)
    requires b < Pow2(n)
    ensures Or(0, b, n) == b
  {
    if n > 0 {
      OrZero(b / 2, n - 1);
    }
  }

  /** An or is zero only if both sides are. */
  lemma {:induction false} OrIsZero(a: nat, b: nat, n: nat)
    requires a < Pow2(n) && b < Pow2(n)
    ensures Or(a, b, n) == 0 <==> a == 0 && b == 0
  {
    if n > 0 {
      OrIsZero(a / 2, b / 2, n - 1);
    }
  }

  /** An exclusive or is zero only if both sides are equal. */
  lemma {:induction false} XorIsZero(a: nat, b: nat, n: nat)
    requires a < Pow2(n) && b < Pow2(n)
    ensures Xor(a, b, n) == 0 <==> a == b
  {
    if n > 0 {
      XorIsZero(a / 2, b / 2, n - 1);
    }
  }

  /** lo | hi << k on n bits, for a lo that ends below the shifted bits. */
  function Splice(lo: nat, hi: nat, k: nat, n: nat): (r: nat)
    requires k <= n && lo < Pow2(k) && hi < Pow2(n - k)
    ensures r == lo + hi * Pow2(k)
  {
    hide Pow2, Or;
    SpliceFits(lo, hi, k, n);
    OrIsSum(lo, hi, k, n);
    Or(lo, hi * Pow2(k), n)
  }

  lemma SpliceFits(lo: nat, hi: nat, k: nat, n: nat)
    requires k <= n && lo < Pow2(k) && hi < Pow2(n - k)
    ensures lo + hi * Pow2(k) < Pow2(n)
  {
    hide Pow2;
    Pow2Add(n - k, k);
    var p, q := Pow2(k), Pow2(n - k);
    assert hi * p <= (q - 1) * p;
  }

  /** Exclusive or is a sum, too, when b begins above the last bit of a. */
  lemma {:induction false} XorIsSum(a: nat, b: nat, k: nat, n: nat)
    requires a < Pow2(k) && a + b * Pow2(k) < Pow2(n)
    ensures Xor(a, b * Pow2(k), n) == a + b * Pow2(k)
    decreases n
  {
    if n > 0 {
      if k == 0 {
        XorCommutes(0, b, n);
        XorZero(b, n);
      } else {
        hide Xor, Pow2;
        DoubledTail(b, k);
        HalvesBelow(a, b * Pow2(k - 1), k, n);
        XorIsSum(a / 2, b, k - 1, n - 1);
        XorHalves(a, 2 * (b * Pow2(k - 1)), n);
        assert 2 * (b * Pow2(k - 1)) / 2 == b * Pow2(k - 1);
      }
    }
  }
}
