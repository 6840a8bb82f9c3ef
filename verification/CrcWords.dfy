/** The checksum register as four machine bytes, which decides what it does to known messages. */
module CrcWords {
  import opened Bits
  import opened BitOps
  import opened MachineBytes
  import opened Crc32

  /** The most significant byte first. */
  datatype Register = Register(b3: bv8, b2: bv8, b1: bv8, b0: bv8)

  function Number(r: Register): uint32 {
    Val(r.b0) as int + 256 * (Val(r.b1) as int + 256 * (Val(r.b2) as int + 256 * Val(r.b3)))
  }

  /** low >> 1 with the last bit of high on top */
  function Shift(high: bv8, low: bv8): bv8 {
    (low >> 1) | (high << 7)
  }

  /** r >> 1 */
  function Shifted(r: Register): Register {
    Register(r.b3 >> 1, Shift(r.b3, r.b2), Shift(r.b2, r.b1), Shift(r.b1, r.b0))
  }

  function Both(r: Register, s: Register): Register {
    Register(MachineXor(r.b3, s.b3), MachineXor(r.b2, s.b2), MachineXor(r.b1, s.b1), MachineXor(r.b0, s.b0))
  }

  const POLYNOMIAL := Register(0xED, 0xB8, 0x83, 0x20)

  function Next(r: Register): Register {
    if r.b0 & 1 == 1 then Both(Shifted(r), POLYNOMIAL) else Shifted(r)
  }

  function After(r: Register, n: nat): Register
    decreases n
  {
    if n == 0 then r else After(Next(r), n - 1)
  }

  function Fed(r: Register, b: bv8): Register {
    After(r.(b0 := r.b0 ^ b), 8)
  }

  /* ---- The register stands for its number ---- */

  lemma ShiftIs(high: bv8, low: bv8)
    ensures Val(Shift(high, low)) == Val(low) / 2 + 128 * (Val(high) % 2)
  {
    Halves(high);
    Halves(low);
    assert ((low >> 1) | (high << 7)) as int == (low >> 1) as int + 128 * ((high & 1) as int);
  }

  lemma ShiftedIs(r: Register)
    ensures Number(Shifted(r)) == Number(r) / 2
    ensures r.b0 & 1 == 1 <==> Number(r) % 2 == 1
  {
    hide Val, Shift;
    Halves(r.b3);
    Halves(r.b0);
    ShiftIs(r.b3, r.b2);
    ShiftIs(r.b2, r.b1);
    ShiftIs(r.b1, r.b0);
    ByteShift(Val(r.b3), Val(r.b2), Val(r.b1), Val(r.b0));
  }

  lemma ByteShift(c3: byte, c2: byte, c1: byte, c0: byte)
    ensures var c := c0 as int + 256 * (c1 as int + 256 * (c2 as int + 256 * c3));
            && c / 2 == (c0 / 2 + 128 * (c1 % 2)) +
                        256 * ((c1 / 2 + 128 * (c2 % 2)) + 256 * ((c2 / 2 + 128 * (c3 % 2)) + 256 * (c3 / 2)))
            && c % 2 == c0 % 2
  {
    var d1 := c1 as int + 256 * (c2 as int + 256 * c3);
    var d2 := c2 as int + 256 * c3;
    ByteHalf(c0, d1);
    ByteHalf(c1, d2);
    ByteHalf(c2, c3);
  }

  lemma ByteHalf(b: byte, d: nat)
    ensures (b + 256 * d) / 2 == b / 2 + 128 * (d % 2) + 256 * (d / 2)
    ensures (b + 256 * d) % 2 == b % 2 && d % 2 == (d % 256) % 2
  {
  }

  lemma {:induction false} XorLow(a: nat, b: nat, n: nat, k: nat)
    requires k <= n
    ensures Low(Xor(a, b, n), k) == Xor(Low(a, k), Low(b, k), k)
    decreases k
  {
    if k > 0 {
      hide Xor, Low;
      XorHalves(a, b, n);
      XorLow(a / 2, b / 2, n - 1, k - 1);
      LowStep(a, k);
      LowStep(b, k);
      LowStep(Xor(a, b, n), k);
      XorHalves(Low(a, k), Low(b, k), k);
    }
  }

  lemma LowStep(x: nat, k: nat)
    requires k > 0
    ensures Low(x, k) == x % 2 + 2 * Low(x / 2, k - 1) && Low(x, k) % 2 == x % 2 && Low(x, k) / 2 == Low(x / 2, k - 1)
  {
  }

  /** Exclusive or keeps bytes apart. */
  lemma XorByte(a: nat, b: nat, n: nat)
    ensures Xor(a, b, 8 + n) == Xor(a % 256, b % 256, 8) + 256 * Xor(a / 256, b / 256, n)
  {
    hide Xor;
    ByteParts(a);
    ByteParts(b);
    ByteParts(Xor(a, b, 8 + n));
    XorShr(a, b, 8 + n, 8);
    XorLow(a, b, 8 + n, 8);
  }

  lemma XorHead(p: nat, q: nat, x: byte, y: byte, a: nat, b: nat, n: nat)
    requires p == x + 256 * a && q == y + 256 * b && n >= 8
    ensures Xor(p, q, n) == Xor(x, y, 8) + 256 * Xor(a, b, n - 8)
  {
    hide Xor;
    XorByte(p, q, n - 8);
  }

  lemma BothIs(r: Register, s: Register)
    ensures Number(Both(r, s)) == Xor32(Number(r), Number(s))
  {
    hide Val, Xor, MachineXor, Pow2;
    ByteXor(r.b0, s.b0);
    ByteXor(r.b1, s.b1);
    ByteXor(r.b2, s.b2);
    ByteXor(r.b3, s.b3);
    var p2: nat, q2: nat := Val(r.b2) as int + 256 * Val(r.b3), Val(s.b2) as int + 256 * Val(s.b3);
    var p1: nat, q1: nat := Val(r.b1) as int + 256 * p2, Val(s.b1) as int + 256 * q2;
    XorHead(Number(r), Number(s), Val(r.b0), Val(s.b0), p1, q1, 32);
    XorHead(p1, q1, Val(r.b1), Val(s.b1), p2, q2, 24);
    XorHead(p2, q2, Val(r.b2), Val(s.b2), Val(r.b3), Val(s.b3), 16);
  }

  lemma ByteXor(a: bv8, b: bv8)
    ensures Val(MachineXor(a, b)) == Xor(Val(a), Val(b), 8)
  {
    assert Pow2(8) == 256;
    XorIsMachine(a, b, 8);
  }

  lemma NextIs(r: Register)
    ensures Number(Next(r)) == Step(Number(r))
  {
    hide Xor32, Number, Shifted, Both;
    ShiftedIs(r);
    BothIs(Shifted(r), POLYNOMIAL);
    PolynomialIs();
  }

  lemma PolynomialIs()
    ensures Number(POLYNOMIAL) == POLY
  {
  }

  lemma {:induction false} AfterIs(r: Register, n: nat)
    ensures Number(After(r, n)) == Steps(Number(r), n)
    decreases n
  {
    hide Number, Next, Step;
    if n > 0 {
      NextIs(r);
      AfterIs(Next(r), n - 1);
    }
  }

  lemma FedIs(r: Register, b: bv8)
    ensures Number(Fed(r, b)) == Feed(Number(r), Val(b))
  {
    hide Xor32, Number, After, Steps;
    var s := Register(0, 0, 0, b);
    BothIs(r, s);
    ByteNumber(b);
    assert Both(r, s) == r.(b0 := r.b0 ^ b);
    AfterIs(Both(r, s), 8);
  }

  lemma ByteNumber(b: bv8)
    ensures Number(Register(0, 0, 0, b)) == Val(b)
  {
  }

  /* ---- Known results ---- */

  const FULL := Register(0xFF, 0xFF, 0xFF, 0xFF)

  lemma FullIs()
    ensures Number(FULL) == ONES
  {
  }

  lemma ResidueRegister()
    ensures After(After(After(After(FULL, 8), 8), 8), 8) == Register(0xDE, 0xBB, 0x20, 0xE3)
  {
    assert After(FULL, 8) == Register(0x2D, 0xFD, 0x10, 0x72);
    assert After(Register(0x2D, 0xFD, 0x10, 0x72), 8) == Register(0xBE, 0x26, 0xED, 0x00);
    assert After(Register(0xBE, 0x26, 0xED, 0x00), 8) == Register(0x00, 0xBE, 0x26, 0xED);
    assert After(Register(0x00, 0xBE, 0x26, 0xED), 8) == Register(0xDE, 0xBB, 0x20, 0xE3);
  }

  /** A message followed by its checksum has the same checksum whatever the message is. */
  lemma Residue(m: seq<byte>)
    ensures Crc(m + Le32(Crc(m))) == 0x2144DF1C
  {
    hide Number, After, Steps, Xor32, Crc, Le32, Both;
    CrcOfChecked(m);
    FullIs();
    StepsAdd(ONES, 8, 24);
    StepsAdd(Steps(ONES, 8), 8, 16);
    StepsAdd(Steps(Steps(ONES, 8), 8), 8, 8);
    AfterIs(FULL, 8);
    AfterIs(After(FULL, 8), 8);
    AfterIs(After(After(FULL, 8), 8), 8);
    AfterIs(After(After(After(FULL, 8), 8), 8), 8);
    ResidueRegister();
    BothIs(Register(0xDE, 0xBB, 0x20, 0xE3), FULL);
    ResidueNumber();
  }

  lemma ResidueNumber()
    ensures Number(Both(Register(0xDE, 0xBB, 0x20, 0xE3), FULL)) == 0x2144DF1C
  {
  }

  lemma CheckFirst()
    ensures Fed(Fed(Fed(FULL, 0x31), 0x32), 0x33) == Register(0x77, 0xB7, 0x9C, 0x2D)
  {
    assert Fed(FULL, 0x31) == Register(0x7C, 0x23, 0x10, 0x48);
    assert Fed(Register(0x7C, 0x23, 0x10, 0x48), 0x32) == Register(0xB0, 0xAC, 0xBB, 0x32);
    assert Fed(Register(0xB0, 0xAC, 0xBB, 0x32), 0x33) == Register(0x77, 0xB7, 0x9C, 0x2D);
  }

  lemma CheckMiddle()
    ensures Fed(Fed(Fed(Register(0x77, 0xB7, 0x9C, 0x2D), 0x34), 0x35), 0x36) == Register(0xF6, 0x8D, 0x2C, 0x9E)
  {
    assert Fed(Register(0x77, 0xB7, 0x9C, 0x2D), 0x34) == Register(0x64, 0x1C, 0x1F, 0x5C);
    assert Fed(Register(0x64, 0x1C, 0x1F, 0x5C), 0x35) == Register(0x34, 0x0A, 0xC5, 0xE3);
    assert Fed(Register(0x34, 0x0A, 0xC5, 0xE3), 0x36) == Register(0xF6, 0x8D, 0x2C, 0x9E);
  }

  lemma CheckLast()
    ensures Fed(Fed(Fed(Register(0xF6, 0x8D, 0x2C, 0x9E), 0x37), 0x38), 0x39) == Register(0x34, 0x0B, 0xC6, 0xD9)
  {
    assert Fed(Register(0xF6, 0x8D, 0x2C, 0x9E), 0x37) == Register(0xAF, 0xFC, 0x96, 0x60);
    assert Fed(Register(0xAF, 0xFC, 0x96, 0x60), 0x38) == Register(0x65, 0x1F, 0x25, 0x50);
    assert Fed(Register(0x65, 0x1F, 0x25, 0x50), 0x39) == Register(0x34, 0x0B, 0xC6, 0xD9);
  }

  /** Three more bytes. */
  lemma FeedThree(r: Register, m: seq<byte>, a: bv8, b: bv8, c: bv8)
    requires FeedAll(ONES, m) == Number(r)
    ensures FeedAll(ONES, m + [Val(a), Val(b), Val(c)]) == Number(Fed(Fed(Fed(r, a), b), c))
  {
    hide Number, Fed, Feed, Val;
    FedIs(r, a);
    FedIs(Fed(r, a), b);
    FedIs(Fed(Fed(r, a), b), c);
    FeedMore(m, Val(a));
    FeedMore(m + [Val(a)], Val(b));
    FeedMore(m + [Val(a)] + [Val(b)], Val(c));
    assert m + [Val(a)] + [Val(b)] + [Val(c)] == m + [Val(a), Val(b), Val(c)];
  }

  lemma FeedMore(m: seq<byte>, b: byte)
    ensures FeedAll(ONES, m + [b]) == Feed(FeedAll(ONES, m), b)
  {
    assert (m + [b])[..|m|] == m;
  }

  /** The check value: the checksum of the digits 1 to 9. */
  lemma CheckValue()
    ensures Crc([0x31, 0x32, 0x33, 0x34, 0x35, 0x36, 0x37, 0x38, 0x39]) == 0xCBF43926
  {
    hide Number, Fed, FeedAll, Xor32, Both;
    FullIs();
    assert FeedAll(ONES, []) == ONES by {
      Nothing();
    }
    CheckFirst();
    CheckMiddle();
    CheckLast();
    FeedThree(FULL, [], 0x31, 0x32, 0x33);
    assert [] + [0x31, 0x32, 0x33] == [0x31, 0x32, 0x33];
    FeedThree(Register(0x77, 0xB7, 0x9C, 0x2D), [0x31, 0x32, 0x33], 0x34, 0x35, 0x36);
    FeedThree(Register(0xF6, 0x8D, 0x2C, 0x9E), [0x31, 0x32, 0x33] + [0x34, 0x35, 0x36], 0x37, 0x38, 0x39);
    assert [0x31, 0x32, 0x33] + [0x34, 0x35, 0x36] + [0x37, 0x38, 0x39] ==
           [0x31, 0x32, 0x33, 0x34, 0x35, 0x36, 0x37, 0x38, 0x39];
    BothIs(Register(0x34, 0x0B, 0xC6, 0xD9), FULL);
    CheckNumber();
  }

  lemma Nothing()
    ensures FeedAll(ONES, []) == ONES
  {
  }

  lemma CheckNumber()
    ensures Number(Both(Register(0x34, 0x0B, 0xC6, 0xD9), FULL)) == 0xCBF43926
  {
  }
}
