/** CRC-32 with the reflected polynomial 0xEDB88320 (section 8 of RFC 1952). */
module Crc32 {
  import opened Bits
  import opened BitOps

  const POLY: uint32 := 0xEDB88320
  const ONES: uint32 := 0xFFFFFFFF

  /** x >> k. */
  function Shr(x: nat, k: nat): nat
    decreases k
  {
    if k == 0 then x else Shr(x / 2, k - 1)
  }

  /** x & (2^k - 1). */
  function Low(x: nat, k: nat): nat
    decreases k
  {
    if k == 0 then 0 else x % 2 + 2 * Low(x / 2, k - 1)
  }

  /** x with its k low bits cleared. */
  function High(x: nat, k: nat): nat
    decreases k
  {
    if k == 0 then x else 2 * High(x / 2, k - 1)
  }

  lemma {:induction false} LowHigh(x: nat, k: nat)
    ensures Low(x, k) + High(x, k) == x
    decreases k
  {
    if k > 0 {
      LowHigh(x / 2, k - 1);
    }
  }

  lemma ByteParts(x: nat)
    ensures Shr(x, 8) == x / 256 && Low(x, 8) == x % 256
  {
    var x1 := x / 2;
    var x2 := x1 / 2;
    var x3 := x2 / 2;
    var x4 := x3 / 2;
    assert Shr(x, 4) == x4 && x4 == x / 16 by {
      assert Shr(x, 4) == Shr(x1, 3) == Shr(x2, 2) == Shr(x3, 1) == Shr(x4, 0);
    }
    var x5 := x4 / 2;
    var x6 := x5 / 2;
    var x7 := x6 / 2;
    var x8 := x7 / 2;
    assert x8 == x / 256;
    assert Shr(x, 8) == Shr(x1, 7) == Shr(x2, 6) == Shr(x3, 5) == Shr(x4, 4);
    assert Shr(x4, 4) == Shr(x5, 3) == Shr(x6, 2) == Shr(x7, 1) == Shr(x8, 0);
    HighShr(x, 8);
    LowHigh(x, 8);
    assert Pow2(8) == 256;
    LowBound(x, 8);
  }

  lemma {:induction false} HighShr(x: nat, k: nat)
    ensures High(x, k) == Pow2(k) * Shr(x, k)
    decreases k
  {
    if k > 0 {
      HighShr(x / 2, k - 1);
    }
  }

  lemma {:induction false} LowBound(x: nat, k: nat)
    ensures Low(x, k) < Pow2(k)
    decreases k
  {
    if k > 0 {
      LowBound(x / 2, k - 1);
    }
  }

  lemma {:induction false} XorShr(a: nat, b: nat, n: nat, k: nat)
    requires k <= n
    ensures Shr(Xor(a, b, n), k) == Xor(Shr(a, k), Shr(b, k), n - k)
    decreases k
  {
    if k > 0 {
      XorHalves(a, b, n);
      XorShr(a / 2, b / 2, n - 1, k - 1);
    }
  }

  /** A number is its low bits xor the rest. */
  lemma {:induction false} XorOfParts(c: nat, n: nat, k: nat)
    requires k <= n && c < Pow2(n)
    ensures Xor(Low(c, k), High(c, k), n) == c
    decreases k
  {
    hide Low, High;
    if k == 0 {
      NoLowBits(c);
      XorCommutes(0, c, n);
      XorZero(c, n);
    } else {
      XorOfParts(c / 2, n - 1, k - 1);
      PartHalves(c, k);
    }
  }

  lemma NoLowBits(c: nat)
    ensures Low(c, 0) == 0 && High(c, 0) == c
  {
  }

  lemma PartHalves(c: nat, k: nat)
    requires k > 0
    ensures Low(c, k) % 2 == c % 2 && Low(c, k) / 2 == Low(c / 2, k - 1)
    ensures High(c, k) % 2 == 0 && High(c, k) / 2 == High(c / 2, k - 1)
  {
    hide Low, High;
    PartSteps(c, k);
    var l, h := Low(c / 2, k - 1), High(c / 2, k - 1);
    DivUnique(Low(c, k), 2, l, c % 2);
    DivUnique(High(c, k), 2, h, 0);
  }

  lemma PartSteps(c: nat, k: nat)
    requires k > 0
    ensures Low(c, k) == c % 2 + 2 * Low(c / 2, k - 1) && High(c, k) == 2 * High(c / 2, k - 1)
  {
  }

  lemma {:induction false} XorWiden(x: nat, y: nat, n: nat)
    requires x < Pow2(n) && y < Pow2(n)
    ensures Xor(x, y, n + 1) == Xor(x, y, n)
  {
    if n == 0 {
      assert Xor(0, 0, 1) == 2 * Xor(0, 0, 0);
    } else {
      XorWiden(x / 2, y / 2, n - 1);
    }
  }

  /** A bit set in only one operand is set in the result. */
  lemma {:induction false} XorTop(x: nat, y: nat, n: nat)
    requires x < Pow2(n) <= y < Pow2(n + 1)
    ensures Xor(x, y, n + 1) >= Pow2(n)
  {
    if n == 0 {
      assert Xor(0, 1, 1) == 1 + 2 * Xor(0, 0, 0);
    } else {
      XorTop(x / 2, y / 2, n - 1);
    }
  }

  function Xor32(a: uint32, b: uint32): (r: uint32) {
    Pow2Of32();
    Xor(a, b, 32)
  }

  lemma Pow2Of32()
    ensures Pow2(32) == 0x1_0000_0000 && Pow2(31) == 0x8000_0000 && Pow2(24) == 0x100_0000 && Pow2(8) == 256
  {
    assert Pow2(8) == 256;
    Pow2Add(8, 8);
    Pow2Add(16, 8);
    Pow2Add(24, 8);
    assert Pow2(32) == 2 * Pow2(31);
  }

  /* ---- One bit and one byte ---- */

  /** POLY if the bit is set. */
  function Mask(c: uint32): uint32 {
    if c % 2 == 1 then POLY else 0
  }

  /** One step of the bit-serial register. */
  function Step(c: uint32): uint32 {
    if c % 2 == 1 then Xor32(c / 2, POLY) else c / 2
  }

  /** n steps. */
  function Steps(c: uint32, n: nat): uint32
    decreases n
  {
    if n == 0 then c else Steps(Step(c), n - 1)
  }

  /** The register after one more byte, bit by bit. */
  function Feed(c: uint32, b: byte): uint32 {
    Steps(Xor32(c, b), 8)
  }

  function FeedAll(c: uint32, data: seq<byte>): uint32 {
    if data == [] then c else Feed(FeedAll(c, data[..|data| - 1]), data[|data| - 1])
  }

  /** The checksum by its bit-serial definition. */
  function Crc(data: seq<byte>): uint32 {
    Xor32(FeedAll(ONES, data), ONES)
  }

  lemma Xor32Laws(a: uint32, b: uint32, c: uint32)
    ensures Xor32(a, 0) == a && Xor32(a, a) == 0 && Xor32(a, b) == Xor32(b, a)
    ensures Xor32(Xor32(a, b), c) == Xor32(a, Xor32(b, c))
  {
    hide Xor, Pow2;
    Pow2Of32();
    XorZero(a, 32);
    XorSelf(a, 32);
    XorCommutes(a, b, 32);
    XorAssociates(a, b, c, 32);
  }

  lemma StepMask(c: uint32)
    ensures Step(c) == Xor32(c / 2, Mask(c))
  {
    hide Xor32;
    Xor32Laws(c / 2, 0, 0);
  }

  lemma MaskLinear(a: uint32, b: uint32)
    ensures Mask(Xor32(a, b)) == Xor32(Mask(a), Mask(b))
    ensures Xor32(a, b) / 2 == Xor32(a / 2, b / 2)
  {
    Pow2Of32();
    XorHalves(a, b, 32);
    XorWiden(a / 2, b / 2, 31);
    hide Xor, Xor32, Pow2;
    Xor32Laws(POLY, 0, 0);
    Xor32Laws(0, POLY, 0);
  }

  lemma StepLinear(a: uint32, b: uint32)
    ensures Step(Xor32(a, b)) == Xor32(Step(a), Step(b))
  {
    hide Xor32, Mask, Step;
    StepMask(a);
    StepMask(b);
    StepMask(Xor32(a, b));
    MaskLinear(a, b);
    XorMiddle(a / 2, Mask(a), b / 2, Mask(b));
  }

  lemma XorMiddle(x: uint32, p: uint32, y: uint32, q: uint32)
    ensures Xor32(Xor32(x, p), Xor32(y, q)) == Xor32(Xor32(x, y), Xor32(p, q))
  {
    hide Xor32;
    Xor32Laws(x, p, Xor32(y, q));
    Xor32Laws(p, y, q);
    Xor32Laws(y, p, q);
    Xor32Laws(x, y, Xor32(p, q));
  }

  lemma {:induction false} StepsLinear(a: uint32, b: uint32, n: nat)
    ensures Steps(Xor32(a, b), n) == Xor32(Steps(a, n), Steps(b, n))
    decreases n
  {
    hide Xor32, Step;
    if n > 0 {
      StepLinear(a, b);
      StepsLinear(Step(a), Step(b), n - 1);
    }
  }

  /** Steps over clear low bits only shift. */
  lemma {:induction false} StepsShift(c: uint32, k: nat)
    ensures High(c, k) <= c && Steps(High(c, k), k) == Shr(c, k)
    decreases k
  {
    LowHigh(c, k);
    if k > 0 {
      StepsShift(c / 2, k - 1);
      assert High(c, k) / 2 == High(c / 2, k - 1);
    }
  }

  /** One table look-up does the eight steps of a byte. */
  lemma TableStep(c: uint32)
    ensures Xor32(c / 256, Steps(c % 256, 8)) == Steps(c, 8)
  {
    hide Xor, Steps, Pow2, High;
    Pow2Of32();
    ByteParts(c);
    LowHigh(c, 8);
    StepsShift(c, 8);
    XorOfParts(c, 32, 8);
    var low: uint32, high: uint32 := Low(c, 8), High(c, 8);
    StepsLinear(low, high, 8);
    Xor32Laws(Steps(low, 8), c / 256, 0);
  }

  lemma ShiftOutByte(c: uint32, b: byte)
    ensures Xor32(c, b) / 256 == c / 256
  {
    hide Xor, Pow2;
    Pow2Of32();
    XorShr(c, b, 32, 8);
    ByteParts(c);
    ByteParts(b);
    ByteParts(Xor32(c, b));
    XorZero(c / 256, 24);
  }

  /* ---- The table and the checksum in place ---- */

  ghost predicate IsTable(table: seq<uint32>) {
    |table| == 256 && forall i: byte :: table[i] == Steps(i, 8)
  }

  lemma {:induction false} StepsSnoc(c: uint32, n: nat)
    ensures Steps(c, n + 1) == Step(Steps(c, n))
    decreases n
  {
    hide Step;
    if n > 0 {
      StepsSnoc(Step(c), n - 1);
    }
  }

  lemma StepsNone(c: uint32)
    ensures Steps(c, 0) == c
  {
  }

  /** The static table and the flag that says it has been built. */
  class Checksum {
    const table: array<uint32>
    var ready: bool

    ghost predicate Valid()
      reads this, table
    {
      table.Length == 256 && (ready ==> IsTable(table[..]))
    }

    constructor ()
      ensures Valid() && !ready && fresh(table)
    {
      table := new uint32[256](_ => 0);
      ready := false;
    }

    method BuildTable()
      requires table.Length == 256
      modifies this, table
      ensures Valid() && ready
    {
      hide Xor32, Steps;
      for i := 0 to 256
        invariant forall k: byte | k < i :: table[k] == Steps(k, 8)
      {
        StepsNone(i);
        var c: uint32 := i;
        for j := 0 to 8
          invariant c == Steps(i, j)
          invariant forall k: byte | k < i :: table[k] == Steps(k, 8)
        {
          StepsSnoc(i, j);
          c := if c % 2 == 1 then Xor32(c / 2, POLY) else c / 2;
        }
        table[i] := c;
        assert table[i] == Steps(i, 8);
      }
      ready := true;
    }

    /** The table-driven checksum equals the bit-serial one. */
    method Compute(data: seq<byte>) returns (crc: uint32)
      requires Valid()
      modifies this, table
      ensures Valid() && crc == Crc(data)
    {
      hide Xor32, Steps;
      var c: uint32 := ONES;
      if !ready {
        BuildTable();
      }
      for i := 0 to |data|
        invariant Valid() && ready && c == FeedAll(ONES, data[..i])
      {
        assert data[..i + 1][..i] == data[..i];
        var x := Xor32(c, data[i]);
        TableStep(x);
        ShiftOutByte(c, data[i]);
        assert table[..][x % 256] == Steps(x % 256, 8);
        c := Xor32(c / 256, table[x % 256]);
      }
      assert data[..|data|] == data;
      crc := Xor32(c, ONES);
    }
  }

  /* ---- Detecting a changed byte ---- */

  /** The step is one-to-one because the polynomial has its top bit set. */
  lemma StepOneToOne(a: uint32, b: uint32)
    requires Step(a) == Step(b)
    ensures a == b
  {
    hide Xor, Pow2;
    Pow2Of32();
    XorTop(a / 2, POLY, 31);
    XorTop(b / 2, POLY, 31);
    if a % 2 == 1 && b % 2 == 1 {
      XorCancels(a / 2, b / 2, POLY, 32);
    }
  }

  lemma {:induction false} StepsOneToOne(a: uint32, b: uint32, n: nat)
    requires Steps(a, n) == Steps(b, n)
    ensures a == b
    decreases n
  {
    hide Step;
    if n > 0 {
      StepsOneToOne(Step(a), Step(b), n - 1);
      StepOneToOne(a, b);
    }
  }

  lemma FeedOneToOne(c: uint32, b: byte, c': uint32, b': byte)
    requires Feed(c, b) == Feed(c', b') && (c == c' || b == b')
    ensures c == c' && b == b'
  {
    hide Xor, Steps, Pow2;
    Pow2Of32();
    StepsOneToOne(Xor32(c, b), Xor32(c', b'), 8);
    if b == b' {
      XorCancels(c, c', b, 32);
    } else {
      XorCommutes(c, b, 32);
      XorCommutes(c, b', 32);
      XorCancels(b, b', c, 32);
    }
  }

  lemma {:induction false} ChangedByteFeeds(data: seq<byte>, k: nat, v: byte, c: uint32)
    requires k < |data| && v != data[k]
    ensures FeedAll(c, data[k := v]) != FeedAll(c, data)
    decreases |data|
  {
    hide Feed;
    var n := |data| - 1;
    var data' := data[k := v];
    if k == n {
      assert data'[..n] == data[..n];
      if FeedAll(c, data') == FeedAll(c, data) {
        FeedOneToOne(FeedAll(c, data[..n]), data[n], FeedAll(c, data'[..n]), data'[n]);
      }
    } else {
      assert data'[..n] == data[..n][k := v];
      ChangedByteFeeds(data[..n], k, v, c);
      if FeedAll(c, data') == FeedAll(c, data) {
        FeedOneToOne(FeedAll(c, data[..n]), data[n], FeedAll(c, data'[..n]), data'[n]);
      }
    }
  }

  /** Changing one byte always changes the checksum. */
  lemma ChangedByteDetected(data: seq<byte>, k: nat, v: byte)
    requires k < |data| && v != data[k]
    ensures Crc(data[k := v]) != Crc(data)
  {
    hide Xor, Pow2, FeedAll;
    Pow2Of32();
    ChangedByteFeeds(data, k, v, ONES);
    if Crc(data[k := v]) == Crc(data) {
      XorCancels(FeedAll(ONES, data[k := v]), FeedAll(ONES, data), ONES, 32);
    }
  }

  /* ---- The checksum behind its message ---- */

  lemma {:induction false} FeedParts(c: uint32, m: seq<byte>, t: seq<byte>)
    ensures FeedAll(c, m + t) == FeedAll(FeedAll(c, m), t)
    decreases |t|
  {
    hide Feed;
    if t == [] {
      assert m + t == m;
    } else {
      var n := |t| - 1;
      assert (m + t)[..|m + t| - 1] == m + t[..n];
      FeedParts(c, m, t[..n]);
    }
  }

  lemma {:induction false} StepsAdd(c: uint32, a: nat, b: nat)
    ensures Steps(c, a + b) == Steps(Steps(c, a), b)
    decreases a
  {
    hide Step;
    if a > 0 {
      StepsAdd(Step(c), a - 1, b);
    }
  }

  /** Feeding the low byte of v leaves the rest of it in the register. */
  lemma FeedLow(c: uint32, v: uint32)
    ensures Steps(Xor32(c, v), 8) == Xor32(Feed(c, v % 256), v / 256)
  {
    hide Xor32, Steps;
    var low: uint32, high: uint32 := v % 256, v / 256;
    Parts(v);
    Xor32Laws(c, low, v - low);
    StepsLinear(Xor32(c, low), v - low, 8);
  }

  lemma Parts(v: uint32)
    ensures Xor32(v % 256, v - v % 256) == v && Steps(v - v % 256, 8) == v / 256
  {
    hide Xor, Pow2, Steps;
    Pow2Of32();
    ByteParts(v);
    LowHigh(v, 8);
    XorOfParts(v, 32, 8);
    StepsShift(v, 8);
  }

  /** Four bytes are fed as one word. */
  lemma FeedWord(c: uint32, v: uint32)
    ensures FeedAll(c, Le32(v)) == Steps(Xor32(c, v), 32)
  {
    hide Xor32, Steps, Feed, Le32, FeedAll;
    var v1, v2, v3 := v / 256, v / 65536, v / 16777216;
    assert v1 / 256 == v2 && v2 / 256 == v3 && v3 / 256 == 0 && v3 < 256;
    var c1 := Feed(c, v % 256);
    var c2 := Feed(c1, v1 % 256);
    var c3 := Feed(c2, v2 % 256);
    var c4 := Feed(c3, v3 % 256);
    FeedLow(c, v);
    FeedLow(c1, v1);
    FeedLow(c2, v2);
    FeedLow(c3, v3);
    Xor32Laws(c4, 0, 0);
    StepsAdd(Xor32(c, v), 8, 24);
    StepsAdd(Xor32(c1, v1), 8, 16);
    StepsAdd(Xor32(c2, v2), 8, 8);
    FeedFour(c, v);
  }

  lemma FeedFour(c: uint32, v: uint32)
    ensures FeedAll(c, Le32(v)) ==
            Feed(Feed(Feed(Feed(c, v % 256), v / 256 % 256), v / 65536 % 256), v / 16777216 % 256)
  {
    hide Feed;
    var s := Le32(v);
    assert s[..3][..2] == s[..2] && s[..2][..1] == s[..1] && s[..1][..0] == [];
    assert FeedAll(c, s[..1]) == Feed(c, s[0]);
    assert FeedAll(c, s[..2]) == Feed(FeedAll(c, s[..1]), s[1]);
    assert FeedAll(c, s[..3]) == Feed(FeedAll(c, s[..2]), s[2]);
  }

  /** Behind any message its checksum brings the register to one state. */
  lemma CrcOfChecked(m: seq<byte>)
    ensures Crc(m + Le32(Crc(m))) == Xor32(Steps(ONES, 32), ONES)
  {
    hide Xor32, Steps, Le32, FeedAll;
    var c := FeedAll(ONES, m);
    FeedParts(ONES, m, Le32(Crc(m)));
    FeedWord(c, Crc(m));
    Xor32Laws(c, c, ONES);
    Xor32Laws(ONES, 0, 0);
  }
}
