/** What the built-in words of the Forth interpreter do, stated by the laws of their results. */
module ForthArithmetic {
  import opened Bits
  import opened BitOps
  import opened ForthModel

  const WORD := 0x1_0000_0000

  /** Bit k of the two's complement form. */
  function BitAt(v: int32, k: nat): bit
    requires k < 32
  {
    Unsigned(v) / Pow2(k) % 2
  }

  /** A quotient or remainder that C does not define. */
  predicate NoResult(p: Prim, a: int32, b: int32) {
    p in {Divide, Modulo} && (b == 0 || (a == -0x8000_0000 && b == -1))
  }

  /** |r| < |b|, and r is zero or has the sign of a. */
  predicate IsRemainder(r: int, a: int, b: int) {
    (if b < 0 then b < r < -b else -b < r < b) && (r == 0 || (r < 0 <==> a < 0))
  }

  predicate IsTruth(v: int32, holds: bool) {
    if holds then v == -1 else v == 0
  }

  /** v is the result of the word on a and b, the topmost. */
  ghost predicate IsResult(p: Prim, a: int32, b: int32, v: int32) {
    match p
    case Plus => (v as int - b - a) % WORD == 0
    case Minus => (v as int + b - a) % WORD == 0
    case Times => (v as int - a as int * b) % WORD == 0
    case Divide => IsRemainder(a as int - b as int * v, a, b)
    case Modulo => b != 0 && (a as int - v) % (b as int) == 0 && IsRemainder(v, a, b)
    case Equal => IsTruth(v, a == b)
    case Less => IsTruth(v, a < b)
    case Greater => IsTruth(v, b < a)
    case BitAnd => forall k | 0 <= k < 32 :: BitAt(v, k) == 1 <==> BitAt(a, k) == 1 && BitAt(b, k) == 1
    case BitOr => forall k | 0 <= k < 32 :: BitAt(v, k) == 1 <==> BitAt(a, k) == 1 || BitAt(b, k) == 1
    case _ => false
  }

  /* ---- Congruence of words ---- */

  lemma WrapCongruent(n: int)
    ensures (Wrap(n) as int - n) % WORD == 0
  {
    var q := (n + 0x8000_0000) / WORD;
    assert Wrap(n) as int - n == -q * WORD;
    DivUnique(-q * WORD, WORD, -q, 0);
  }

  /** Words that differ by a multiple of 2^32 are equal. */
  lemma SameWord(v: int32, w: int32, x: int)
    requires (v as int - x) % WORD == 0 && (w as int - x) % WORD == 0
    ensures v == w
  {
    var p, q := (v as int - x) / WORD, (w as int - x) / WORD;
    assert v as int - w == (p - q) * WORD;
  }

  /* ---- Quotients ---- */

  lemma TruncDivIs(a: int, b: int)
    requires b != 0
    ensures IsRemainder(a - b * TruncDiv(a, b), a, b)
  {
    var x, y := if a < 0 then -a else a, if b < 0 then -b else b;
    var q, r := x / y, x % y;
    assert x == q * y + r;
    assert (-y) * q == -(q * y) && y * (-q) == -(q * y) && (-y) * (-q) == q * y;
  }

  lemma QuotientUnique(a: int, b: int, v: int, w: int)
    requires b != 0 && IsRemainder(a - b * v, a, b) && IsRemainder(a - b * w, a, b)
    ensures v == w
  {
    Distribute(b, v, w);
    Multiple(b, v - w);
  }

  lemma Distribute(b: int, v: int, w: int)
    ensures b * (v - w) == b * v - b * w
  {
  }

  /** A multiple of b smaller than b is zero. */
  lemma Multiple(b: int, k: int)
    requires b != 0 && (if b < 0 then b < b * k < -b else -b < b * k < b)
    ensures k == 0
  {
    if k >= 1 {
      MulAtLeast(k, if b < 0 then -b else b);
    } else if k <= -1 {
      MulAtLeast(-k, if b < 0 then -b else b);
    }
  }

  lemma RemainderUnique(a: int, b: int, v: int, w: int)
    requires b != 0 && (a - v) % b == 0 && (a - w) % b == 0
    requires IsRemainder(v, a, b) && IsRemainder(w, a, b)
    ensures v == w
  {
    var p, q := (a - v) / b, (a - w) / b;
    ExactQuotient(a - v, b);
    ExactQuotient(a - w, b);
    Distribute(b, q, p);
    Multiple(b, q - p);
  }

  lemma ExactQuotient(x: int, b: int)
    requires b != 0 && x % b == 0
    ensures x == b * (x / b)
  {
  }

  /* ---- Bits ---- */

  lemma {:induction false} OperatorBits(a: nat, b: nat, n: nat, k: nat)
    requires k < n
    ensures And(a, b, n) / Pow2(k) % 2 == 1 <==> a / Pow2(k) % 2 == 1 && b / Pow2(k) % 2 == 1
    ensures Or(a, b, n) / Pow2(k) % 2 == 1 <==> a / Pow2(k) % 2 == 1 || b / Pow2(k) % 2 == 1
    decreases k
  {
    OperatorHalves(a, b, n);
    if k > 0 {
      hide And, Or, Pow2;
      OperatorBits(a / 2, b / 2, n - 1, k - 1);
      NextBit(a, k);
      NextBit(b, k);
      NextBit(And(a, b, n), k);
      NextBit(Or(a, b, n), k);
    }
  }

  lemma OperatorHalves(a: nat, b: nat, n: nat)
    requires n > 0
    ensures And(a, b, n) / 2 == And(a / 2, b / 2, n - 1) && (And(a, b, n) % 2 == 1 <==> a % 2 == 1 && b % 2 == 1)
    ensures Or(a, b, n) / 2 == Or(a / 2, b / 2, n - 1) && (Or(a, b, n) % 2 == 1 <==> a % 2 == 1 || b % 2 == 1)
  {
  }

  lemma NextBit(x: nat, k: nat)
    requires k > 0
    ensures x / Pow2(k) == x / 2 / Pow2(k - 1)
  {
    HalfFirst(x % 2, x / 2, Pow2(k - 1));
  }

  lemma UnsignedWrap(n: uint32)
    ensures Unsigned(Wrap(n)) == n
  {
  }

  lemma BitsOfResult(p: Prim, a: int32, b: int32)
    requires p in {BitAnd, BitOr}
    ensures Binary(p, a, b).Some? && IsResult(p, a, b, Binary(p, a, b).value)
  {
    hide And, Or, Pow2, Wrap, Unsigned;
    Power32();
    var v := Binary(p, a, b).value;
    var n: uint32 := if p == BitAnd then And(Unsigned(a), Unsigned(b), 32) else Or(Unsigned(a), Unsigned(b), 32);
    UnsignedWrap(n);
    forall k | 0 <= k < 32
      ensures p == BitAnd ==> (BitAt(v, k) == 1 <==> BitAt(a, k) == 1 && BitAt(b, k) == 1)
      ensures p == BitOr ==> (BitAt(v, k) == 1 <==> BitAt(a, k) == 1 || BitAt(b, k) == 1)
    {
      OperatorBits(Unsigned(a), Unsigned(b), 32, k);
    }
  }

  lemma Power32()
    ensures Pow2(32) == WORD
  {
    assert Pow2(8) == 0x100;
    Pow2Add(8, 8);
    Pow2Add(16, 16);
  }

  /** Words with the same bits are equal. */
  lemma SameBits(v: int32, w: int32)
    requires forall k | 0 <= k < 32 :: BitAt(v, k) == BitAt(w, k)
    ensures v == w
  {
    hide LowBits, Pow2;
    Power32();
    var x, y: nat := Unsigned(v), Unsigned(w);
    LowBitsValue(x, 32);
    LowBitsValue(y, 32);
    forall k | 0 <= k < 32 ensures LowBits(x, 32)[k] == LowBits(y, 32)[k] {
      LowBitsAt(x, 32, k);
      LowBitsAt(y, 32, k);
      assert BitAt(v, k) == BitAt(w, k);
    }
    assert LowBits(x, 32) == LowBits(y, 32);
  }

  /* ---- Every word ---- */

  lemma SumResult(p: Prim, a: int32, b: int32)
    requires p in {Plus, Minus, Times}
    ensures Binary(p, a, b).Some? && IsResult(p, a, b, Binary(p, a, b).value)
  {
    hide Wrap;
    var n := if p == Plus then a as int + b else if p == Minus then a as int - b else a as int * b;
    WrapCongruent(n);
    var v: int := Wrap(n);
    assert p == Plus ==> v - b - a == v - n;
    assert p == Minus ==> v + b - a == v - n;
  }

  lemma WrapFits(n: int32)
    ensures Wrap(n) == n
  {
  }

  lemma QuotientAtMost(x: nat, y: nat)
    requires y > 0
    ensures x / y <= x && (y >= 2 ==> 2 * (x / y) <= x)
  {
    var q, r := x / y, x % y;
    assert x == q * y + r;
    if q > 0 {
      MulAtLeast(q, y);
      MulAtLeast(y, q);
      if y >= 2 {
        assert q * y == 2 * q + q * (y - 2);
      }
    }
  }

  /** A quotient of words is a word but for -2^31 / -1. */
  lemma QuotientFits(a: int32, b: int32)
    requires !NoResult(Divide, a, b)
    ensures -0x8000_0000 <= TruncDiv(a, b) < 0x8000_0000
  {
    var x: int, y: int := if a < 0 then -(a as int) else a, if b < 0 then -(b as int) else b;
    QuotientAtMost(x, y);
    var q := x / y;
    assert TruncDiv(a, b) == q || TruncDiv(a, b) == -q;
    assert a < 0 && b == -1 ==> TruncDiv(a, b) == -(a as int);
  }

  lemma QuotientResult(p: Prim, a: int32, b: int32)
    requires p in {Divide, Modulo} && !NoResult(p, a, b)
    ensures Binary(p, a, b).Some? && IsResult(p, a, b, Binary(p, a, b).value)
  {
    hide Wrap, TruncDiv;
    var q := TruncDiv(a, b);
    TruncDivIs(a, b);
    QuotientFits(a, b);
    WrapFits(q);
    var r := a as int - b as int * q;
    WrapFits(r);
    assert a as int - r == b as int * q;
    MultipleOf(b, q);
  }

  lemma MultipleOf(b: int, q: int)
    requires b != 0
    ensures (b * q) % b == 0
  {
    if b > 0 {
      DivUnique(b * q, b, q, 0);
    } else {
      assert b * q == (-b) * (-q);
      DivUnique((-b) * (-q), -b, -q, 0);
      assert (b * q) % b == (b * q) % (-b);
    }
  }

  lemma CompareResult(p: Prim, a: int32, b: int32)
    requires p in {Equal, Less, Greater}
    ensures Binary(p, a, b).Some? && IsResult(p, a, b, Binary(p, a, b).value)
  {
  }

  /** Every two-operand word has the result these laws ask for, exactly where C defines one. */
  lemma BinaryIs(p: Prim, a: int32, b: int32)
    requires IsBinary(p)
    ensures Binary(p, a, b).None? <==> NoResult(p, a, b)
    ensures Binary(p, a, b).Some? ==> IsResult(p, a, b, Binary(p, a, b).value)
  {
    if NoResult(p, a, b) {
    } else {
      hide Binary, IsResult, NoResult;
      if p in {Plus, Minus, Times} {
        SumResult(p, a, b);
      } else if p in {Divide, Modulo} {
        QuotientResult(p, a, b);
      } else if p in {BitAnd, BitOr} {
        BitsOfResult(p, a, b);
      } else {
        CompareResult(p, a, b);
      }
    }
  }

  /** The laws leave one result. */
  lemma ResultUnique(p: Prim, a: int32, b: int32, v: int32, w: int32)
    requires IsResult(p, a, b, v) && IsResult(p, a, b, w)
    ensures v == w
  {
    hide Wrap, BitAt;
    match p
    case Plus => SameWord(v, w, a as int + b);
    case Minus => SameWord(v, w, a as int - b);
    case Times => SameWord(v, w, a as int * b);
    case Divide => QuotientUnique(a, b, v, w);
    case Modulo => RemainderUnique(a, b, v, w);
    case BitAnd => SameBits(v, w);
    case BitOr => SameBits(v, w);
    case _ =>
  }

  /** NOT turns every bit. */
  lemma NotIs(a: int32, k: nat)
    requires k < 32
    ensures BitAt(-(a as int) - 1, k) == 1 - BitAt(a, k)
  {
    var x: nat := Unsigned(a);
    assert Unsigned(-(a as int) - 1) == WORD - 1 - x;
    hide Pow2;
    Power32();
    Complement(x, 32, k);
  }

  lemma {:induction false} Complement(x: nat, n: nat, k: nat)
    requires k < n && x < Pow2(n)
    ensures (Pow2(n) - 1 - x) / Pow2(k) % 2 == 1 - x / Pow2(k) % 2
    decreases k
  {
    var y: nat := Pow2(n) - 1 - x;
    ComplementHalves(x, n);
    if k == 0 {
      assert Pow2(0) == 1;
    } else {
      hide Pow2;
      Complement(x / 2, n - 1, k - 1);
      NextBit(x, k);
      NextBit(y, k);
    }
  }

  lemma ComplementHalves(x: nat, n: nat)
    requires n > 0 && x < Pow2(n)
    ensures x / 2 < Pow2(n - 1) && (Pow2(n) - 1 - x) / 2 == Pow2(n - 1) - 1 - x / 2
    ensures (Pow2(n) - 1 - x) % 2 == 1 - x % 2
  {
  }

  /* ---- The other words ---- */

  /** What a word leaves of the three topmost values. */
  function Effect(p: Prim, a: int32, b: int32, c: int32): seq<int32> {
    match p
    case Dup => [a, b, c, c]
    case Drop => [a, b]
    case Swap => [a, c, b]
    case Over => [a, b, c, b]
    case Rot => [b, c, a]
    case _ => [a, b, c]
  }

  /** The stack words have the effects of the Forth standard. */
  lemma StackEffects(p: Prim, s: State, below: seq<int32>, a: int32, b: int32, c: int32)
    requires p in {Dup, Drop, Swap, Over, Rot} && s.stack == below + [a, b, c] && |s.stack| < STACK_SIZE
    ensures RunPrim(p, s) == Ok(s.(stack := below + Effect(p, a, b, c)))
  {
    var o := RunPrim(p, s);
    assert o.Ok? && o.s.stack == below + Effect(p, a, b, c);
  }

  /** ".S" shows every value, the topmost last. */
  lemma {:induction false} ListingAt(stack: seq<int32>, k: nat)
    requires k < |stack|
    ensures |Listing(stack)| == 2 * |stack|
    ensures Listing(stack)[2 * k] == Number(stack[k]) && Listing(stack)[2 * k + 1] == Char(32)
  {
    var n := |stack| - 1;
    if n == 0 {
      assert Listing(stack[..n]) == [];
    } else {
      ListingAt(stack[..n], if k < n then k else 0);
    }
  }

  /** WORDS shows every name, the newest first. */
  lemma {:induction false} NamesAt(dict: seq<Word>, k: nat)
    requires k < |dict|
    ensures |Names(dict)| == 3 * |dict| && Names(dict)[3 * k + 1] == Text(dict[|dict| - 1 - k].name)
  {
    var n := |dict| - 1;
    if n == 0 {
      assert Names(dict[..n]) == [];
    } else {
      NamesAt(dict[..n], if k > 0 then k - 1 else 0);
    }
  }

  /** A letter and its capital are the same in names. */
  lemma CaseIgnored(k: nat)
    requires k < 26
    ensures Lower(('A' as int + k) as char) == ('a' as int + k) as char == Lower(('a' as int + k) as char)
  {
  }

  /** Names that differ in case only are found alike. */
  lemma {:induction false} FindAnyCase(dict: seq<Word>, x: string, y: string, n: nat)
    requires n <= |dict| && SameName(x, y)
    ensures Find(dict, x, n) == Find(dict, y, n)
    decreases n
  {
    if n > 0 {
      hide Lower;
      SameNameAs(dict[n - 1].name, x, y);
      FindAnyCase(dict, x, y, n - 1);
    }
  }

  lemma SameNameAs(a: string, x: string, y: string)
    requires SameName(x, y)
    ensures SameName(a, x) <==> SameName(a, y)
  {
    hide Lower;
    assert |x| == |y| && forall i | 0 <= i < |x| :: Lower(x[i]) == Lower(y[i]);
  }
}
