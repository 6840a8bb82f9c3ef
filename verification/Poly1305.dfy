/** The Poly1305 authenticator (section 2.5 of RFC 8439), streaming over 26-bit limbs. */
module Poly1305 {
  import opened Bits
  import opened Congruence
  import opened LittleEndian
  import opened BitOps
  import opened PolyField

  /* ---- Section 2.5 of RFC 8439 ---- */

  /** r with the required bits cleared. */
  function Clamp(s: seq<byte>): (r: seq<byte>)
    requires |s| == 16
    ensures |r| == 16
  {
    seq(16, i requires 0 <= i < 16 =>
      if i % 4 == 3 then (s[i] as int) % 16
      else if i > 0 && i % 4 == 0 then (s[i] as int) / 4 * 4
      else s[i])
  }

  /** The accumulator after a message: each block of 16 bytes, the last maybe shorter, with a one appended. */
  function Accumulate(r: nat, msg: seq<byte>): nat
    decreases |msg|
  {
    if msg == [] then 0
    else
      var k := (|msg| - 1) / 16 * 16;
      Absorb(Accumulate(r, msg[..k]), r, msg[k..])
  }

  function Absorb(a: nat, r: nat, part: seq<byte>): nat {
    ((a + Num(part + [1])) * r) % P
  }

  function TagValue(key: seq<byte>, msg: seq<byte>): nat
    requires |key| == 32
  {
    (Accumulate(Num(Clamp(key[..16])), msg) + Num(key[16..])) % 0x1_0000_0000_0000_0000_0000_0000_0000_0000
  }

  function Tag(key: seq<byte>, msg: seq<byte>): (t: seq<byte>)
    requires |key| == 32
    ensures |t| == 16
  {
    Bytes(TagValue(key, msg), 16)
  }

  /* ---- Numbers and bytes ---- */

  /** Sixteen bytes and the appended one, as words. */
  lemma BlockNum(m: seq<byte>)
    requires |m| == 16
    ensures Num(m + [1]) ==
            Words(Word(m, 0), Word(m, 4), Word(m, 8), Word(m, 12)) + 0x1_0000_0000_0000_0000_0000_0000_0000_0000
    ensures Num(m) == Words(Word(m, 0), Word(m, 4), Word(m, 8), Word(m, 12))
  {
    hide FromLe32;
    NumWords(m + [1]);
    NumWords(m);
    SameWord(m, [1], 0);
    SameWord(m, [1], 4);
    SameWord(m, [1], 8);
    SameWord(m, [1], 12);
    assert (m + [1])[16..] == [1] && [1][1..] == [] && m[16..] == [];
  }

  lemma SameWord(m: seq<byte>, t: seq<byte>, i: nat)
    requires i + 4 <= |m|
    ensures Word(m + t, i) == Word(m, i)
  {
    assert (m + t)[i..i + 4] == m[i..i + 4];
  }

  /** Clamping the bytes is masking the words. */
  lemma ClampWords(s: seq<byte>)
    requires |s| == 16
    ensures Word(Clamp(s), 0) == Word(s, 0) % 0x1000_0000
    ensures Word(Clamp(s), 4) == Word(s, 4) % 0x1000_0000 / 4 * 4
    ensures Word(Clamp(s), 8) == Word(s, 8) % 0x1000_0000 / 4 * 4
    ensures Word(Clamp(s), 12) == Word(s, 12) % 0x1000_0000 / 4 * 4
  {
    var c := Clamp(s);
    assert c[0] == s[0] && c[1] == s[1] && c[2] == s[2] && c[3] == (s[3] as int) % 16;
    FirstClamped(c[0..4], s[0..4]);
    ClampedAt(s, c, 4);
    ClampedAt(s, c, 8);
    ClampedAt(s, c, 12);
  }

  lemma ClampedAt(s: seq<byte>, c: seq<byte>, i: nat)
    requires |s| == 16 && c == Clamp(s) && i % 4 == 0 && 4 <= i <= 12
    ensures Word(c, i) == Word(s, i) % 0x1000_0000 / 4 * 4
  {
    hide Clamp, FromLe32;
    ClampedBytes(s, i);
    SliceBytes(c, i);
    SliceBytes(s, i);
    OtherClamped(c[i..i + 4], s[i..i + 4]);
  }

  lemma ClampedBytes(s: seq<byte>, i: nat)
    requires |s| == 16 && i % 4 == 0 && 4 <= i <= 12
    ensures var c := Clamp(s);
            && c[i] == (s[i] as int) / 4 * 4 && c[i + 1] == s[i + 1] && c[i + 2] == s[i + 2]
            && c[i + 3] == (s[i + 3] as int) % 16
  {
  }

  lemma SliceBytes(s: seq<byte>, i: nat)
    requires i + 4 <= |s|
    ensures s[i..i + 4][0] == s[i] && s[i..i + 4][1] == s[i + 1]
    ensures s[i..i + 4][2] == s[i + 2] && s[i..i + 4][3] == s[i + 3]
  {
  }

  lemma FirstClamped(c: seq<byte>, w: seq<byte>)
    requires |c| == |w| == 4 && c[0] == w[0] && c[1] == w[1] && c[2] == w[2] && c[3] == (w[3] as int) % 16
    ensures FromLe32(c) == FromLe32(w) % 0x1000_0000
  {
    DivUnique(FromLe32(w), 0x1000_0000, (w[3] as int) / 16, FromLe32(c));
  }

  lemma OtherClamped(c: seq<byte>, w: seq<byte>)
    requires |c| == |w| == 4
    requires c[0] == (w[0] as int) / 4 * 4 && c[1] == w[1] && c[2] == w[2] && c[3] == (w[3] as int) % 16
    ensures FromLe32(c) == FromLe32(w) % 0x1000_0000 / 4 * 4
  {
    var m := FromLe32(w) % 0x1000_0000;
    var q := (w[0] as int) / 4 + 64 * (w[1] as int) + 0x4000 * (w[2] as int) + 0x40_0000 * ((w[3] as int) % 16);
    assert FromLe32(c) == 4 * q;
    DivUnique(FromLe32(w), 0x1000_0000, (w[3] as int) / 16, 4 * q + (w[0] as int) % 4);
    DivUnique(m, 4, q, (w[0] as int) % 4);
  }

  /* ---- Blocks ---- */

  /** A block after a whole number of blocks. */
  lemma AccumulateMore(r: nat, a: seq<byte>, b: seq<byte>)
    requires |a| % 16 == 0 && 1 <= |b| <= 16
    ensures Accumulate(r, a + b) == Absorb(Accumulate(r, a), r, b)
  {
    hide Absorb;
    var msg := a + b;
    var k := (|msg| - 1) / 16 * 16;
    assert k == |a|;
    assert msg[..k] == a && msg[k..] == b;
  }

  /** Absorbing n into an accumulator known up to congruence. */
  lemma AbsorbCong(h: int, a: nat, n: nat, r: nat, h': int)
    requires Cong(P, h, a) && Cong(P, h', (h + n) * r)
    ensures Cong(P, h', ((a + n) * r) % P)
  {
    hide Cong;
    CongMulAdd(P, h, a, n, r);
    CongMod(P, (a + n) * r);
    CongTrans(P, h', (h + n) * r, (a + n) * r);
    CongSym(P, ((a + n) * r) % P, (a + n) * r);
    CongTrans(P, h', (a + n) * r, ((a + n) * r) % P);
  }

  /* ---- Words spliced by shift and or ---- */

  lemma Powers()
    ensures Pow2(6) == 0x40 && Pow2(8) == 0x100 && Pow2(12) == 0x1000 && Pow2(14) == 0x4000
    ensures Pow2(18) == 0x4_0000 && Pow2(20) == 0x10_0000 && Pow2(24) == 0x100_0000 && Pow2(26) == 0x400_0000
    ensures Pow2(38) == 0x40_0000_0000 && Pow2(40) == 0x100_0000_0000 && Pow2(44) == 0x1000_0000_0000
    ensures Pow2(46) == 0x4000_0000_0000 && Pow2(50) == 0x4_0000_0000_0000 && Pow2(52) == 0x10_0000_0000_0000
    ensures Pow2(56) == 0x100_0000_0000_0000 && Pow2(58) == 0x400_0000_0000_0000
  {
    assert Pow2(6) == 0x40;
    assert Pow2(12) == 0x1000;
    assert Pow2(18) == 0x4_0000;
    assert Pow2(24) == 0x100_0000;
    assert Pow2(26) == 0x400_0000;
    Pow2Add(26, 12);
    Pow2Add(26, 14);
    Pow2Add(26, 18);
    Pow2Add(26, 20);
    Pow2Add(26, 24);
    Pow2Add(26, 26);
    Pow2Add(44, 12);
    Pow2Add(44, 14);
  }

  /** Keeping 26 bits of a spliced word. */
  lemma KeepLow6(lo: int, hi: int)
    requires 0 <= lo < 0x40 && hi >= 0
    ensures (lo + hi * 0x40) % 0x400_0000 == lo + 0x40 * (hi % 0x10_0000)
  {
    DivUnique(lo + hi * 0x40, 0x400_0000, hi / 0x10_0000, lo + 0x40 * (hi % 0x10_0000));
  }

  lemma KeepLow12(lo: int, hi: int)
    requires 0 <= lo < 0x1000 && hi >= 0
    ensures (lo + hi * 0x1000) % 0x400_0000 == lo + 0x1000 * (hi % 0x4000)
  {
    DivUnique(lo + hi * 0x1000, 0x400_0000, hi / 0x4000, lo + 0x1000 * (hi % 0x4000));
  }

  lemma KeepLow18(lo: int, hi: int)
    requires 0 <= lo < 0x4_0000 && hi >= 0
    ensures (lo + hi * 0x4_0000) % 0x400_0000 == lo + 0x4_0000 * (hi % 0x100)
  {
    DivUnique(lo + hi * 0x4_0000, 0x400_0000, hi / 0x100, lo + 0x4_0000 * (hi % 0x100));
  }

  /** Five 26-bit limbs of four words, as the code cuts them. */
  method CutWords(u0: uint32, u1: uint32, u2: uint32, u3: uint32)
    returns (m0: uint64, m1: uint64, m2: uint64, m3: uint64, m4: uint64)
    ensures Limbs(m0, m1, m2, m3, m4) == Cut(u0, u1, u2, u3, 0)
  {
    hide Pow2, Splice;
    Powers();
    m0 := u0 % 0x400_0000;
    m1 := Splice(u0 / 0x400_0000, u1, 6, 64) % 0x400_0000;
    KeepLow6(u0 / 0x400_0000, u1);
    m2 := Splice(u1 / 0x10_0000, u2, 12, 64) % 0x400_0000;
    KeepLow12(u1 / 0x10_0000, u2);
    m3 := Splice(u2 / 0x4000, u3, 18, 64) % 0x400_0000;
    KeepLow18(u2 / 0x4000, u3);
    m4 := u3 / 0x100;
  }

  /** Four words of five limbs, as the code assembles them. */
  method AssembleWords(h0: uint64, h1: uint64, h2: uint64, h3: uint64, h4: uint64)
    returns (w0: uint32, w1: uint32, w2: uint32, w3: uint32)
    requires h0 < 0x400_0000 && h1 < 0x400_0000 && h2 < 0x400_0000 && h3 < 0x400_0000 && h4 <= 0x400_0000
    ensures w0 == Word0(Limbs(h0, h1, h2, h3, h4)) && w1 == Word1(Limbs(h0, h1, h2, h3, h4))
    ensures w2 == Word2(Limbs(h0, h1, h2, h3, h4)) && w3 == Word3(Limbs(h0, h1, h2, h3, h4))
  {
    hide Pow2, Splice;
    Powers();
    w0 := Splice(h0, h1 % 0x40, 26, 64) % 0x1_0000_0000;
    w1 := Splice(h1 / 0x40, h2 % 0x1000, 20, 64) % 0x1_0000_0000;
    w2 := Splice(h2 / 0x1000, h3 % 0x4_0000, 14, 64) % 0x1_0000_0000;
    w3 := Splice(h3 / 0x4_0000, h4, 8, 64) % 0x1_0000_0000;
    TopWord(h3 / 0x4_0000, h4);
  }

  lemma TopWord(lo: int, h4: int)
    requires 0 <= lo < 0x100 && h4 >= 0
    ensures (lo + h4 * 0x100) % 0x1_0000_0000 == lo + 0x100 * (h4 % 0x100_0000)
  {
    DivUnique(lo + h4 * 0x100, 0x1_0000_0000, h4 / 0x100_0000, lo + 0x100 * (h4 % 0x100_0000));
  }
}
