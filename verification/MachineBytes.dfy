/** The bitwise operators of this model agree with those of machine bytes. */
module MachineBytes {
  import opened Bits
  import opened BitOps

  function Val(v: bv8): byte {
    v as int
  }

  function Half(v: bv8): bv8 {
    v >> 1
  }

  function MachineXor(a: bv8, b: bv8): bv8 {
    a ^ b
  }

  function MachineOr(a: bv8, b: bv8): bv8 {
    a | b
  }

  function MachineAnd(a: bv8, b: bv8): bv8 {
    a & b
  }

  lemma Halves(v: bv8)
    ensures Val(v) / 2 == Val(Half(v)) && Val(v) % 2 == if v & 1 == 1 then 1 else 0
  {
    assert v as int == 2 * ((v >> 1) as int) + ((v & 1) as int);
    assert v & 1 == 1 || v & 1 == 0;
  }

  lemma HalvesOf(a: bv8, b: bv8)
    ensures Half(MachineXor(a, b)) == MachineXor(Half(a), Half(b))
    ensures Half(MachineOr(a, b)) == MachineOr(Half(a), Half(b))
    ensures Half(MachineAnd(a, b)) == MachineAnd(Half(a), Half(b))
    ensures MachineXor(a, b) & 1 == 1 <==> (a & 1 == 1) != (b & 1 == 1)
    ensures MachineOr(a, b) & 1 == 1 <==> a & 1 == 1 || b & 1 == 1
    ensures MachineAnd(a, b) & 1 == 1 <==> a & 1 == 1 && b & 1 == 1
  {
  }

  lemma XorParts(a: bv8, b: bv8)
    ensures Val(MachineXor(a, b)) == BitXor(Val(a), Val(b)) + 2 * Val(MachineXor(Half(a), Half(b)))
  {
    hide Val, Half, MachineXor;
    Halves(a);
    Halves(b);
    Halves(MachineXor(a, b));
    HalvesOf(a, b);
  }

  lemma OrParts(a: bv8, b: bv8)
    ensures Val(MachineOr(a, b)) ==
            (if Val(a) % 2 == 1 || Val(b) % 2 == 1 then 1 else 0) + 2 * Val(MachineOr(Half(a), Half(b)))
  {
    hide Val, Half, MachineOr;
    Halves(a);
    Halves(b);
    Halves(MachineOr(a, b));
    HalvesOf(a, b);
  }

  lemma AndParts(a: bv8, b: bv8)
    ensures Val(MachineAnd(a, b)) ==
            (if Val(a) % 2 == 1 && Val(b) % 2 == 1 then 1 else 0) + 2 * Val(MachineAnd(Half(a), Half(b)))
  {
    hide Val, Half, MachineAnd;
    Halves(a);
    Halves(b);
    Halves(MachineAnd(a, b));
    HalvesOf(a, b);
  }

  /** Bytes without bits. */
  lemma NoBits(a: bv8, b: bv8)
    requires Val(a) < 1 && Val(b) < 1
    ensures Val(MachineXor(a, b)) == 0 && Val(MachineOr(a, b)) == 0 && Val(MachineAnd(a, b)) == 0
  {
  }

  /** One more bit of a number. */
  lemma Unrolled(x: nat, y: nat, n: nat)
    ensures Pow2(0) == 1 && Xor(x, y, 0) == 0 && Or(x, y, 0) == 0 && And(x, y, 0) == 0
    ensures n > 0 && x < Pow2(n) ==> x / 2 < Pow2(n - 1)
    ensures n > 0 ==> Xor(x, y, n) == BitXor(x, y) + 2 * Xor(x / 2, y / 2, n - 1)
    ensures n > 0 ==>
              Or(x, y, n) == (if x % 2 == 1 || y % 2 == 1 then 1 else 0) + 2 * Or(x / 2, y / 2, n - 1)
    ensures n > 0 ==>
              And(x, y, n) == (if x % 2 == 1 && y % 2 == 1 then 1 else 0) + 2 * And(x / 2, y / 2, n - 1)
  {
  }

  lemma {:induction false} XorIsMachine(a: bv8, b: bv8, n: nat)
    requires Val(a) < Pow2(n) && Val(b) < Pow2(n)
    ensures Xor(Val(a), Val(b), n) == Val(MachineXor(a, b))
    decreases n
  {
    hide *;
    Unrolled(Val(a), Val(b), n);
    Unrolled(Val(b), Val(a), n);
    if n == 0 {
      NoBits(a, b);
    } else {
      Halves(a);
      Halves(b);
      XorParts(a, b);
      XorIsMachine(Half(a), Half(b), n - 1);
    }
  }

  lemma {:induction false} OrIsMachine(a: bv8, b: bv8, n: nat)
    requires Val(a) < Pow2(n) && Val(b) < Pow2(n)
    ensures Or(Val(a), Val(b), n) == Val(MachineOr(a, b))
    decreases n
  {
    hide *;
    Unrolled(Val(a), Val(b), n);
    Unrolled(Val(b), Val(a), n);
    if n == 0 {
      NoBits(a, b);
    } else {
      Halves(a);
      Halves(b);
      OrParts(a, b);
      OrIsMachine(Half(a), Half(b), n - 1);
    }
  }

  lemma {:induction false} AndIsMachine(a: bv8, b: bv8, n: nat)
    requires Val(a) < Pow2(n) && Val(b) < Pow2(n)
    ensures And(Val(a), Val(b), n) == Val(MachineAnd(a, b))
    decreases n
  {
    hide *;
    Unrolled(Val(a), Val(b), n);
    Unrolled(Val(b), Val(a), n);
    if n == 0 {
      NoBits(a, b);
    } else {
      Halves(a);
      Halves(b);
      AndParts(a, b);
      AndIsMachine(Half(a), Half(b), n - 1);
    }
  }
}
