/** The streaming Poly1305 context: any split of the message gives the tag of the whole. */
module PolyStream {
  import opened Bits
  import opened Congruence
  import opened BitOps
  import opened LittleEndian
  import opened PolyField
  import opened Poly1305

  class Context {
    const h: array<uint64>
    const buf: array<byte>
    var buflen: nat
    const r: Limbs
    const rr: seq<uint64>
    const s: seq<uint32>
    ghost const key: seq<byte>
    /** Whole blocks already multiplied into h. */
    ghost var blocks: seq<byte>

    ghost predicate Shape() {
      && h.Length == 5 && buf.Length == 16 && (h as object) != buf
      && |rr| == 4 && |s| == 4 && |key| == 32 && Tight(r)
      && rr[0] == 5 * r.l1 && rr[1] == 5 * r.l2 && rr[2] == 5 * r.l3 && rr[3] == 5 * r.l4
      && Val(r) == Num(Clamp(key[..16])) && Words(s[0], s[1], s[2], s[3]) == Num(key[16..])
    }

    ghost function Acc(): Limbs
      requires Shape()
      reads h
    {
      Limbs(h[0], h[1], h[2], h[3], h[4])
    }

    /** The accumulator stands for the whole blocks. */
    ghost predicate Steady()
      reads `blocks, h
      ensures Steady() ==> Shape()
    {
      && Shape() && |blocks| % 16 == 0 && Loose(Acc())
      && Cong(P, Val(Acc()), Accumulate(Num(Clamp(key[..16])), blocks))
    }

    /** The rest waits in the buffer. */
    ghost predicate Valid()
      reads this, h
    {
      Steady() && buflen < 16
    }

    /** Everything fed so far. */
    ghost function Message(): seq<byte>
      requires Valid()
      reads this, h, buf
    {
      blocks + buf[..buflen]
    }

    constructor (k: seq<byte>)
      requires |k| == 32
      ensures Valid() && key == k && Message() == [] && fresh(h) && fresh(buf)
    {
      hide FromLe32, Num, Clamp, Cong, Cut, Tight, Words, Val, Accumulate;
      var r0, r1, r2, r3, r4 := LoadR(k);
      r := Limbs(r0, r1, r2, r3, r4);
      rr := [r1 * 5, r2 * 5, r3 * 5, r4 * 5];
      s := [FromLe32(k[16..20]), FromLe32(k[20..24]), FromLe32(k[24..28]), FromLe32(k[28..32])];
      h := new uint64[5](_ => 0);
      buf := new byte[16];
      buflen := 0;
      key := k;
      blocks := [];
      KeyWords(k);
      ZeroLimbs(Num(Clamp(k[..16])));
    }

    /** Adds a block, with hibit as its bit 128, and multiplies by r. */
    method Block(m: seq<byte>, hibit: bit)
      requires Shape() && |m| == 16 && Loose(Acc())
      modifies h
      ensures Loose(Acc())
      ensures Cong(P, Val(Acc()),
                (Val(old(Acc())) + (Num(m) + 0x1_0000_0000_0000_0000_0000_0000_0000_0000 * hibit)) * Val(r))
    {
      hide FromLe32, Num, Clamp, Cong, Cut, Val, Words, Product, Carried, Columns, Loose, Tight;
      ghost var was := Acc();
      var u0, u1, u2, u3 := FromLe32(m[0..4]), FromLe32(m[4..8]), FromLe32(m[8..12]), FromLe32(m[12..16]);
      var m0, m1, m2, m3, m4 := CutBlock(u0, u1, u2, u3, hibit);
      ghost var part := Cut(u0, u1, u2, u3, hibit);
      CutValue(u0, u1, u2, u3, hibit);
      BlockNum(m);
      ghost var sum := Plus(was, part);
      ProductBound(was, part, r);
      SumFits(was, part);
      var d0, d1, d2, d3, d4 := Multiply(h[0] + m0, h[1] + m1, h[2] + m2, h[3] + m3, h[4] + m4, r, rr);
      ghost var d := Limbs(d0, d1, d2, d3, d4);
      ProductValue(sum, r);
      CarriedValue(d);
      CarriedLoose(d);
      CongTrans(P, Val(sum) * Val(r), Val(d), Val(Carried(d)));
      CongSym(P, Val(sum) * Val(r), Val(Carried(d)));
      h[0], h[1], h[2], h[3], h[4] := Carry(d0, d1, d2, d3, d4);
      assert Acc() == Carried(d);
    }

    /** One more whole block. */
    method FullBlock(m: seq<byte>)
      requires Steady() && |m| == 16
      modifies h, `blocks
      ensures Steady() && blocks == old(blocks) + m
    {
      hide FromLe32, Num, Clamp, Cong, Val, Loose, Tight, Accumulate, Words;
      ghost var rv := Num(Clamp(key[..16]));
      ghost var was := Val(Acc());
      Block(m, 1);
      BlockNum(m);
      AbsorbsBlock(was, blocks, m, Num(m) + 0x1_0000_0000_0000_0000_0000_0000_0000_0000, rv, Val(Acc()));
      blocks := blocks + m;
    }

    /** Feeds data, whatever is already buffered. */
    method Update(data: seq<byte>)
      requires Valid()
      modifies this, h, buf
      ensures Valid() && Message() == old(Message()) + data
    {
      hide Num, Clamp, Cong, Val, Loose, Tight, Accumulate, Words, Steady;
      var pos := 0;
      ghost var was := Message();
      if buflen != 0 {
        var fill := 16 - buflen;
        if |data| < fill {
          CopyInto(buf, buflen, data);
          buflen := buflen + |data|;
          assert Message() == was + data;
          return;
        }
        CopyInto(buf, buflen, data[..fill]);
        FullBlock(buf[..]);
        buflen := 0;
        pos := fill;
        assert blocks == was + data[..pos];
      }
      while |data| - pos >= 16
        invariant 0 <= pos <= |data| && buflen == 0 && Steady() && blocks == was + data[..pos]
      {
        FullBlock(data[pos..pos + 16]);
        assert data[..pos + 16] == data[..pos] + data[pos..pos + 16];
        pos := pos + 16;
      }
      KeepRest(data[pos..]);
      assert was + data == blocks + data[pos..] by { assert data == data[..pos] + data[pos..]; }
    }

    /** Buffers what is left after the last whole block. */
    method KeepRest(rest: seq<byte>)
      requires Steady() && buflen == 0 && |rest| < 16
      modifies `buflen, buf
      ensures Valid() && Message() == blocks + rest
    {
      hide Steady;
      if |rest| != 0 {
        CopyInto(buf, 0, rest);
        buflen := |rest|;
      }
    }

    /** The tag of everything fed; the context is used up. */
    method Final() returns (tag: seq<byte>)
      requires Valid()
      modifies this, h, buf
      ensures tag == Tag(key, old(Message()))
    {
      hide Num, Clamp, Cong, Val, Loose, Tight, Accumulate, Words, FromLe32, Bytes, Steady, Settled;
      ghost var msg := Message();
      FlushLast();
      ghost var last := Acc();
      var h0, h1, h2, h3, h4 := Settle(h[0], h[1], h[2], h[3], h[4]);
      SettledTight(last);
      SettledValue(last);
      CongSym(P, Val(last), Val(Settled(last)));
      CongTrans(P, Val(Settled(last)), Val(last), Accumulate(Num(Clamp(key[..16])), msg));
      tag := Finish(h0, h1, h2, h3, h4, s);
      TagFrom(key, msg, Val(Limbs(h0, h1, h2, h3, h4)), tag);
    }

    /** Pads and absorbs a partial block, if there is one. */
    method FlushLast()
      requires Valid()
      modifies h, buf
      ensures Shape() && Loose(Acc())
      ensures Cong(P, Val(Acc()), Accumulate(Num(Clamp(key[..16])), old(Message())))
    {
      hide Num, Clamp, Cong, Val, Loose, Tight, Accumulate, Words;
      ghost var part := buf[..buflen];
      if buflen != 0 {
        buf[buflen] := 1;
        for i := buflen + 1 to 16
          modifies buf
          invariant buf[..buflen] == part && buf[buflen] == 1 && forall k | buflen < k < i :: buf[k] == 0
        {
          buf[i] := 0;
        }
        NumZeros(buf[..], buflen + 1);
        assert buf[..][..buflen + 1] == part + [1];
        ghost var was := Val(Acc());
        Block(buf[..], 0);
        AbsorbsBlock(was, blocks, part, Num(part + [1]), Num(Clamp(key[..16])), Val(Acc()));
      } else {
        assert blocks + part == blocks;
      }
    }
  }

  lemma AbsorbsBlock(h: int, blocks: seq<byte>, m: seq<byte>, n: nat, r: nat, h': int)
    requires |blocks| % 16 == 0 && 1 <= |m| <= 16 && n == Num(m + [1])
    requires Cong(P, h, Accumulate(r, blocks)) && Cong(P, h', (h + n) * r)
    ensures Cong(P, h', Accumulate(r, blocks + m))
  {
    hide Cong, Num, Accumulate;
    AccumulateMore(r, blocks, m);
    AbsorbCong(h, Accumulate(r, blocks), n, r, h');
  }

  method CopyInto(buf: array<byte>, at: nat, data: seq<byte>)
    requires at + |data| <= buf.Length
    modifies buf
    ensures buf[..at] == old(buf[..at]) && buf[at..at + |data|] == data
    ensures buf[at + |data|..] == old(buf[at + |data|..])
  {
    for i := 0 to |data|
      invariant buf[..at] == old(buf[..at]) && buf[at..at + i] == data[..i]
      invariant buf[at + |data|..] == old(buf[at + |data|..])
    {
      buf[at + i] := data[i];
    }
  }

  lemma {:induction false} AccumulateBelow(r: nat, msg: seq<byte>)
    ensures Accumulate(r, msg) < P
  {
    hide Num;
  }

  /** The first carries of poly1305_final. */
  method Settle(l0: uint64, l1: uint64, l2: uint64, l3: uint64, l4: uint64)
    returns (h0: uint64, h1: uint64, h2: uint64, h3: uint64, h4: uint64)
    requires Loose(Limbs(l0, l1, l2, l3, l4))
    ensures Limbs(h0, h1, h2, h3, h4) == Settled(Limbs(l0, l1, l2, l3, l4))
  {
    hide Over, Low;
    var c;
    c, h1 := CutLimb(l1);
    h2 := l2 + c;
    c, h2 := CutLimb(h2);
    h3 := l3 + c;
    c, h3 := CutLimb(h3);
    h4 := l4 + c;
    c, h4 := CutLimb(h4);
    h0 := l0 + c * 5;
    c, h0 := CutLimb(h0);
    h1 := h1 + c;
  }

  /** A carry and the 26 bits below it. */
  method CutLimb(h: uint64) returns (c: uint64, rest: uint64)
    ensures c == Over(h) && rest == Low(h) && rest < 0x400_0000 && 0x400_0000 * (c as int) <= h
  {
    c := h / 0x400_0000;
    rest := h % 0x400_0000;
  }

  lemma SumFits(h: Limbs, m: Limbs)
    requires Loose(h) && Tight(m)
    ensures var x := Plus(h, m);
            && 0 <= x.l0 < 0x800_0000 && 0 <= x.l1 < 0x800_0400 && 0 <= x.l2 < 0x800_0000
            && 0 <= x.l3 < 0x800_0000 && 0 <= x.l4 < 0x800_0000
  {
  }

  /** The limbs of a block with its top bit. */
  method CutBlock(u0: uint32, u1: uint32, u2: uint32, u3: uint32, hibit: bit)
    returns (m0: uint64, m1: uint64, m2: uint64, m3: uint64, m4: uint64)
    ensures Limbs(m0, m1, m2, m3, m4) == Cut(u0, u1, u2, u3, hibit)
  {
    hide Pow2, Splice;
    m0, m1, m2, m3, m4 := CutWords(u0, u1, u2, u3);
    Powers();
    m4 := Splice(m4, hibit, 24, 64);
  }

  /** The five column sums; none leaves 64 bits. */
  method Multiply(h0: uint64, h1: uint64, h2: uint64, h3: uint64, h4: uint64, r: Limbs, rr: seq<uint64>)
    returns (d0: uint64, d1: uint64, d2: uint64, d3: uint64, d4: uint64)
    requires Tight(r) && |rr| == 4
    requires rr[0] == 5 * r.l1 && rr[1] == 5 * r.l2 && rr[2] == 5 * r.l3 && rr[3] == 5 * r.l4
    requires h0 < 0x800_0400 && h1 < 0x800_0400 && h2 < 0x800_0400 && h3 < 0x800_0400 && h4 < 0x800_0400
    ensures Limbs(d0, d1, d2, d3, d4) == Product(Limbs(h0, h1, h2, h3, h4), r)
  {
    RowBound(h0, r);
    RowBound(h1, r);
    RowBound(h2, r);
    RowBound(h3, r);
    RowBound(h4, r);
    var r0, r1, r2, r3, r4 := r.l0, r.l1, r.l2, r.l3, r.l4;
    var s1, s2, s3, s4 := rr[0], rr[1], rr[2], rr[3];
    d0 := h0 * r0 + h1 * s4 + h2 * s3 + h3 * s2 + h4 * s1;
    d1 := h0 * r1 + h1 * r0 + h2 * s4 + h3 * s3 + h4 * s2;
    d2 := h0 * r2 + h1 * r1 + h2 * r0 + h3 * s4 + h4 * s3;
    d3 := h0 * r3 + h1 * r2 + h2 * r1 + h3 * r0 + h4 * s4;
    d4 := h0 * r4 + h1 * r3 + h2 * r2 + h3 * r1 + h4 * r0;
  }

  /** The carry chain of one block. */
  method Carry(d0: uint64, d1: uint64, d2: uint64, d3: uint64, d4: uint64)
    returns (h0: uint64, h1: uint64, h2: uint64, h3: uint64, h4: uint64)
    requires Columns(Limbs(d0, d1, d2, d3, d4))
    ensures Limbs(h0, h1, h2, h3, h4) == Carried(Limbs(d0, d1, d2, d3, d4))
  {
    hide Over, Low;
    var c;
    c, h0 := CutLimb(d0);
    var e1: uint64 := d1 + c;
    c, h1 := CutLimb(e1);
    var e2: uint64 := d2 + c;
    c, h2 := CutLimb(e2);
    var e3: uint64 := d3 + c;
    c, h3 := CutLimb(e3);
    var e4: uint64 := d4 + c;
    c, h4 := CutLimb(e4);
    h0 := h0 + c * 5;
    c, h0 := CutLimb(h0);
    h1 := h1 + c;
  }

  /** An empty accumulator stands for no blocks. */
  lemma ZeroLimbs(r: nat)
    ensures Loose(Limbs(0, 0, 0, 0, 0)) && Cong(P, Val(Limbs(0, 0, 0, 0, 0)), Accumulate(r, []))
  {
    CongSame(P, 0);
  }

  /** The clamped multiplier in limbs. */
  method LoadR(k: seq<byte>) returns (r0: uint64, r1: uint64, r2: uint64, r3: uint64, r4: uint64)
    requires |k| == 32
    ensures Tight(Limbs(r0, r1, r2, r3, r4)) && Val(Limbs(r0, r1, r2, r3, r4)) == Num(Clamp(k[..16]))
    ensures r1 < 0x400_0000 && r2 < 0x400_0000 && r3 < 0x400_0000 && r4 < 0x400_0000
  {
    hide FromLe32, Num, Clamp, Cut, Val, Words;
    var t0 := FromLe32(k[0..4]) % 0x1000_0000;
    var t1 := FromLe32(k[4..8]) % 0x1000_0000 / 4 * 4;
    var t2 := FromLe32(k[8..12]) % 0x1000_0000 / 4 * 4;
    var t3 := FromLe32(k[12..16]) % 0x1000_0000 / 4 * 4;
    r0, r1, r2, r3, r4 := CutWords(t0, t1, t2, t3);
    CutValue(t0, t1, t2, t3, 0);
    KeyWords(k);
  }

  lemma KeyWords(k: seq<byte>)
    requires |k| == 32
    ensures Num(Clamp(k[..16])) ==
            Words(FromLe32(k[0..4]) % 0x1000_0000, FromLe32(k[4..8]) % 0x1000_0000 / 4 * 4,
              FromLe32(k[8..12]) % 0x1000_0000 / 4 * 4, FromLe32(k[12..16]) % 0x1000_0000 / 4 * 4)
    ensures Num(k[16..]) ==
            Words(FromLe32(k[16..20]), FromLe32(k[20..24]), FromLe32(k[24..28]), FromLe32(k[28..32]))
  {
    hide FromLe32, Num, Clamp;
    var a, b := k[..16], k[16..];
    ClampWords(a);
    BlockNum(Clamp(a));
    BlockNum(b);
    assert a[0..4] == k[0..4] && a[4..8] == k[4..8] && a[8..12] == k[8..12] && a[12..16] == k[12..16];
    assert b[0..4] == k[16..20] && b[4..8] == k[20..24] && b[8..12] == k[24..28] && b[12..16] == k[28..32];
  }

  /** Compares with 2^130 - 5, assembles the words and adds the pad. */
  method Finish(l0: uint64, l1: uint64, l2: uint64, l3: uint64, l4: uint64, s: seq<uint32>) returns (tag: seq<byte>)
    requires |s| == 4 && Tight(Limbs(l0, l1, l2, l3, l4))
    ensures |tag| == 16
    ensures Num(tag) == (Val(Limbs(l0, l1, l2, l3, l4)) % P + Words(s[0], s[1], s[2], s[3])) %
                        0x1_0000_0000_0000_0000_0000_0000_0000_0000
  {
    hide Val, Words, Num, Le32, FromLe32, PlusFive;
    ghost var l := Limbs(l0, l1, l2, l3, l4);
    var h0, h1, h2, h3, h4 := Freeze(l0, l1, l2, l3, l4);
    FrozenValue(l);
    var w0, w1, w2, w3 := AssembleWords(h0, h1, h2, h3, h4);
    FrozenWords(l, w0, w1, w2, w3);
    tag := AddPad(w0, w1, w2, w3, s);
    PadMod(Val(l) % P, Words(w0, w1, w2, w3), Words(s[0], s[1], s[2], s[3]));
  }

  /** The sum with the pad, as bytes. */
  method AddPad(w0: uint32, w1: uint32, w2: uint32, w3: uint32, s: seq<uint32>) returns (tag: seq<byte>)
    requires |s| == 4
    ensures |tag| == 16
    ensures Num(tag) == (Words(w0, w1, w2, w3) + Words(s[0], s[1], s[2], s[3])) %
                        0x1_0000_0000_0000_0000_0000_0000_0000_0000
  {
    hide Words, Num, Le32;
    var f0: uint64 := w0 as int + s[0];
    var f1: uint64 := w1 as int + s[1] + f0 / 0x1_0000_0000;
    var f2: uint64 := w2 as int + s[2] + f1 / 0x1_0000_0000;
    var f3: uint64 := w3 as int + s[3] + f2 / 0x1_0000_0000;
    var b0: uint32, b1: uint32 := f0 % 0x1_0000_0000, f1 % 0x1_0000_0000;
    var b2: uint32, b3: uint32 := f2 % 0x1_0000_0000, f3 % 0x1_0000_0000;
    tag := Le32(b0) + Le32(b1) + Le32(b2) + Le32(b3);
    TagWords(b0, b1, b2, b3);
    PadSum(w0, w1, w2, w3, s[0], s[1], s[2], s[3]);
  }

  /** The choice between h and h + 5. */
  method Freeze(h0: uint64, h1: uint64, h2: uint64, h3: uint64, h4: uint64)
    returns (f0: uint64, f1: uint64, f2: uint64, f3: uint64, f4: uint64)
    requires Tight(Limbs(h0, h1, h2, h3, h4))
    ensures Limbs(f0, f1, f2, f3, f4) == Frozen(Limbs(h0, h1, h2, h3, h4))
  {
    hide PlusFive;
    var g0, g1, g2, g3, g4 := AddFive(h0, h1, h2, h3, h4);
    if (g4 / 0x400_0000) % 2 == 1 {
      f0, f1, f2, f3, f4 := g0, g1, g2, g3, g4;
    } else {
      f0, f1, f2, f3, f4 := h0, h1, h2, h3, h4;
    }
  }

  method AddFive(h0: uint64, h1: uint64, h2: uint64, h3: uint64, h4: uint64)
    returns (g0: uint64, g1: uint64, g2: uint64, g3: uint64, g4: uint64)
    requires Tight(Limbs(h0, h1, h2, h3, h4))
    ensures Limbs(g0, g1, g2, g3, g4) == PlusFive(Limbs(h0, h1, h2, h3, h4))
  {
    g0 := h0 + 5;
    var c := g0 / 0x400_0000;
    g0 := g0 % 0x400_0000;
    g1 := h1 + c;
    c := g1 / 0x400_0000;
    g1 := g1 % 0x400_0000;
    g2 := h2 + c;
    c := g2 / 0x400_0000;
    g2 := g2 % 0x400_0000;
    g3 := h3 + c;
    c := g3 / 0x400_0000;
    g3 := g3 % 0x400_0000;
    g4 := h4 + c;
  }

  lemma FrozenWords(l: Limbs, w0: uint32, w1: uint32, w2: uint32, w3: uint32)
    requires Tight(l)
    requires var f := Frozen(l); w0 == Word0(f) && w1 == Word1(f) && w2 == Word2(f) && w3 == Word3(f)
    ensures Words(w0, w1, w2, w3) == Val(l) % P % 0x1_0000_0000_0000_0000_0000_0000_0000_0000
  {
    hide Val, Frozen, Word0, Word1, Word2, Word3;
    var f := Frozen(l);
    FrozenValue(l);
    WordsValue(f);
    var v := Val(l) % P;
    var top := f.l4 / 0x100_0000;
    if Val(f) == v {
      DivUnique(v, 0x1_0000_0000_0000_0000_0000_0000_0000_0000, top, Words(w0, w1, w2, w3));
    } else {
      DivUnique(v, 0x1_0000_0000_0000_0000_0000_0000_0000_0000, top - 4, Words(w0, w1, w2, w3));
    }
  }

  lemma PadSum(w0: uint32, w1: uint32, w2: uint32, w3: uint32, s0: uint32, s1: uint32, s2: uint32, s3: uint32)
    ensures var f0 := w0 as int + s0;
            var f1 := w1 as int + s1 + f0 / 0x1_0000_0000;
            var f2 := w2 + s2 + f1 / 0x1_0000_0000;
            var f3 := w3 + s3 + f2 / 0x1_0000_0000;
            Words(f0 % 0x1_0000_0000, f1 % 0x1_0000_0000, f2 % 0x1_0000_0000, f3 % 0x1_0000_0000) ==
            (Words(w0, w1, w2, w3) + Words(s0, s1, s2, s3)) % 0x1_0000_0000_0000_0000_0000_0000_0000_0000
  {
    hide Words;
    var f0 := w0 + s0;
    var f1 := w1 + s1 + f0 / 0x1_0000_0000;
    var f2 := w2 + s2 + f1 / 0x1_0000_0000;
    var f3 := w3 + s3 + f2 / 0x1_0000_0000;
    PadCarries(w0 + s0, w1 + s1, w2 + s2, w3 + s3, f0 / 0x1_0000_0000, f1 / 0x1_0000_0000, f2 / 0x1_0000_0000,
      f3 / 0x1_0000_0000, f0 % 0x1_0000_0000, f1 % 0x1_0000_0000, f2 % 0x1_0000_0000, f3 % 0x1_0000_0000);
    WordsSum(w0, w1, w2, w3, s0, s1, s2, s3);
    DivUnique(Words(w0, w1, w2, w3) + Words(s0, s1, s2, s3), 0x1_0000_0000_0000_0000_0000_0000_0000_0000,
      f3 / 0x1_0000_0000, Words(f0 % 0x1_0000_0000, f1 % 0x1_0000_0000, f2 % 0x1_0000_0000, f3 % 0x1_0000_0000));
  }

  lemma WordsSum(w0: int, w1: int, w2: int, w3: int, s0: int, s1: int, s2: int, s3: int)
    ensures Words(w0, w1, w2, w3) + Words(s0, s1, s2, s3) == Words(w0 + s0, w1 + s1, w2 + s2, w3 + s3)
  {
  }

  /** Four sums with their carries in and out. */
  lemma PadCarries(x0: int, x1: int, x2: int, x3: int, c0: int, c1: int, c2: int, c3: int,
                   r0: int, r1: int, r2: int, r3: int)
    requires x0 == 0x1_0000_0000 * c0 + r0 && x1 + c0 == 0x1_0000_0000 * c1 + r1
    requires x2 + c1 == 0x1_0000_0000 * c2 + r2 && x3 + c2 == 0x1_0000_0000 * c3 + r3
    requires 0 <= r0 < 0x1_0000_0000 && 0 <= r1 < 0x1_0000_0000 && 0 <= r2 < 0x1_0000_0000 && 0 <= r3 < 0x1_0000_0000
    ensures Words(x0, x1, x2, x3) == Words(r0, r1, r2, r3) + 0x1_0000_0000_0000_0000_0000_0000_0000_0000 * c3
    ensures 0 <= Words(r0, r1, r2, r3) < 0x1_0000_0000_0000_0000_0000_0000_0000_0000
  {
  }

  lemma PadMod(v: int, w: int, s: int)
    requires w == v % 0x1_0000_0000_0000_0000_0000_0000_0000_0000
    ensures (w + s) % 0x1_0000_0000_0000_0000_0000_0000_0000_0000 ==
            (v + s) % 0x1_0000_0000_0000_0000_0000_0000_0000_0000
  {
    var m := 0x1_0000_0000_0000_0000_0000_0000_0000_0000;
    var q, t := (w + s) / m, (w + s) % m;
    DivUnique(v + s, m, q + v / m, t);
  }

  lemma TagWords(f0: uint32, f1: uint32, f2: uint32, f3: uint32)
    ensures Num(Le32(f0) + Le32(f1) + Le32(f2) + Le32(f3)) == Words(f0, f1, f2, f3)
  {
    hide Le32, FromLe32, Num, Words;
    var t := Le32(f0) + Le32(f1) + Le32(f2) + Le32(f3);
    BlockNum(t);
    assert t[0..4] == Le32(f0) && t[4..8] == Le32(f1) && t[8..12] == Le32(f2) && t[12..16] == Le32(f3);
    Le32RoundTrip(f0);
    Le32RoundTrip(f1);
    Le32RoundTrip(f2);
    Le32RoundTrip(f3);
  }

  lemma TagFrom(key: seq<byte>, msg: seq<byte>, v: int, tag: seq<byte>)
    requires |key| == 32 && |tag| == 16
    requires Cong(P, v, Accumulate(Num(Clamp(key[..16])), msg))
    requires Num(tag) == (v % P + Num(key[16..])) % 0x1_0000_0000_0000_0000_0000_0000_0000_0000
    ensures tag == Tag(key, msg)
  {
    hide Num, Clamp, Accumulate, Bytes, Cong;
    var r := Num(Clamp(key[..16]));
    CongSameMod(P, v, Accumulate(r, msg));
    AccumulateBelow(r, msg);
    BytesOfNum(tag);
  }

  /* ---- Any split ---- */

  /** However the message is split into updates, the tag is that of the whole. */
  method TagOfParts(key: seq<byte>, parts: seq<seq<byte>>) returns (tag: seq<byte>)
    requires |key| == 32
    ensures tag == Tag(key, Concat(parts))
  {
    hide Context.Valid, Context.Message, Tag;
    var ctx := new Context(key);
    for i := 0 to |parts|
      invariant ctx.Valid() && fresh(ctx) && fresh(ctx.h) && fresh(ctx.buf) && ctx.key == key
      invariant ctx.Message() == Concat(parts[..i])
    {
      ctx.Update(parts[i]);
      assert parts[..i + 1][..i] == parts[..i];
    }
    assert parts[..|parts|] == parts;
    tag := ctx.Final();
  }
}
