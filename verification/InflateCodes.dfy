/** Compressed block data: literals and back-references (section 3.2.5 of RFC 1951). */
module InflateCodes {
  import opened Bits
  import opened InflateReader
  import opened InflateTable
  import opened Lz

  const LENS := [3, 4, 5, 6, 7, 8, 9, 10, 11, 13, 15, 17, 19, 23, 27, 31,
                 35, 43, 51, 59, 67, 83, 99, 115, 131, 163, 195, 227, 258]
  const LEXT := [0, 0, 0, 0, 0, 0, 0, 0, 1, 1, 1, 1, 2, 2, 2, 2, 3, 3, 3, 3, 4, 4, 4, 4, 5, 5, 5, 5, 0]
  const DISTS := [1, 2, 3, 4, 5, 7, 9, 13, 17, 25, 33, 49, 65, 97, 129, 193,
                  257, 385, 513, 769, 1025, 1537, 2049, 3073, 4097, 6145,
                  8193, 12289, 16385, 24577]
  const DEXT := [0, 0, 0, 0, 1, 1, 2, 2, 3, 3, 4, 4, 5, 5, 6, 6, 7, 7, 8, 8, 9, 9, 10, 10, 11, 11, 12, 12, 13, 13]

  function LenBase(li: nat): (r: nat)
    requires li < 29
    ensures r >= 3
  {
    LENS[li]
  }

  function LenExtra(li: nat): nat
    requires li < 29
  {
    LEXT[li]
  }

  function DistBase(di: nat): (r: nat)
    requires di < 30
    ensures r >= 1
  {
    DISTS[di]
  }

  function DistExtra(di: nat): nat
    requires di < 30
  {
    DEXT[di]
  }

  /* ---- What a block means ---- */

  /** A literal byte, or a match given by its length and distance symbols and extra bits. */
  datatype Token = Literal(b: byte) | Match(li: nat, lx: nat, di: nat, dx: nat)

  ghost predicate TokenOk(ll: seq<int>, dl: seq<int>, t: Token) {
    match t
    case Literal(b) => Coded(ll, b)
    case Match(li, lx, di, dx) =>
      && li < 29 && lx < Pow2(LenExtra(li)) && Coded(ll, 257 + li)
      && di < 30 && dx < Pow2(DistExtra(di)) && Coded(dl, di)
  }

  function MatchLen(t: Token): nat
    requires t.Match? && t.li < 29
  {
    LenBase(t.li) + t.lx
  }

  function MatchDist(t: Token): (d: nat)
    requires t.Match? && t.di < 30
    ensures d >= 1
  {
    DistBase(t.di) + t.dx
  }

  function TokenBits(ll: seq<int>, dl: seq<int>, t: Token): seq<bit>
    requires TokenOk(ll, dl, t)
  {
    match t
    case Literal(b) => CodeWord(ll, b)
    case Match(li, lx, di, dx) =>
      CodeWord(ll, 257 + li) + (LowBits(lx, LenExtra(li)) + (CodeWord(dl, di) + LowBits(dx, DistExtra(di))))
  }

  /** A match must not reach back before the first output byte. */
  ghost predicate Reaches(out: seq<byte>, t: Token) {
    t.Match? ==> t.li < 29 && t.di < 30 && MatchDist(t) <= |out|
  }

  ghost function Apply(out: seq<byte>, t: Token): (r: seq<byte>)
    requires Reaches(out, t)
    ensures |r| > |out|
  {
    match t
    case Literal(b) => out + [b]
    case Match(_, _, _, _) => CopyBack(out, MatchDist(t), MatchLen(t))
  }

  ghost predicate TokensOk(ll: seq<int>, dl: seq<int>, toks: seq<Token>) {
    forall k | 0 <= k < |toks| :: TokenOk(ll, dl, toks[k])
  }

  ghost predicate Expandable(out: seq<byte>, toks: seq<Token>)
    decreases |toks|
  {
    toks != [] ==> Reaches(out, toks[0]) && Expandable(Apply(out, toks[0]), toks[1..])
  }

  /** The output after all tokens. */
  ghost function Expand(out: seq<byte>, toks: seq<Token>): (r: seq<byte>)
    requires Expandable(out, toks)
    ensures |r| >= |out|
    decreases |toks|
  {
    if toks == [] then out else Expand(Apply(out, toks[0]), toks[1..])
  }

  /** Tokens in their codes, ended by the end-of-block code 256. */
  ghost function TokensBits(ll: seq<int>, dl: seq<int>, toks: seq<Token>, rest: seq<bit>): seq<bit>
    requires TokensOk(ll, dl, toks) && Coded(ll, 256)
    decreases |toks|
  {
    if toks == [] then CodeWord(ll, 256) + rest
    else TokenBits(ll, dl, toks[0]) + TokensBits(ll, dl, toks[1..], rest)
  }

  /* ---- What the decoder does with any bits ---- */

  datatype Outcome = Done(out: seq<byte>, rest: seq<bit>) | Fail(code: int)

  /** A match read after its length symbol, the error state it leaves and the bits after it. */
  datatype MatchRead = BadMatch(code: int) | MatchRead(len: nat, dist: nat, err: int, rest: seq<bit>)

  ghost function ReadMatch(dl: seq<int>, li: nat, bs: seq<bit>): (m: MatchRead)
    ensures m.MatchRead? ==> |m.rest| <= |bs| && m.dist >= 1 && m.len >= 3
    ensures m.BadMatch? ==> m.code != 0
  {
    if li >= 29 then BadMatch(ERR_BADCODE)
    else
      var len := LenBase(li) + ValueLsb(Take(bs, LenExtra(li)));
      var bs2 := Drop(bs, LenExtra(li));
      var d := DecodeSym(dl, bs2);
      if d.sym == -1 then BadMatch(ERR_BADCODE)
      else if LenExtra(li) > |bs| || d.used > |bs2| then BadMatch(ERR_TRUNC)
      else if d.sym >= 30 then BadMatch(ERR_BADCODE)
      else
        var bs3 := Drop(bs2, d.used);
        var dist := DistBase(d.sym) + ValueLsb(Take(bs3, DistExtra(d.sym)));
        MatchRead(len, dist, ErrAfter(0, bs3, DistExtra(d.sym)), Drop(bs3, DistExtra(d.sym)))
  }

  /** One turn of the decoding loop: an end, or the bits and output to go on with. */
  datatype Step = Stop(outcome: Outcome) | More(rest: seq<bit>, out: seq<byte>)

  ghost function CodesStep(ll: seq<int>, dl: seq<int>, bs: seq<bit>, out: seq<byte>, max: nat): (s: Step)
    ensures s.More? ==> |s.rest| < |bs|
    ensures s.Stop? && s.outcome.Fail? ==> s.outcome.code != 0
  {
    var d := DecodeSym(ll, bs);
    if d.sym == -1 then Stop(Fail(ERR_BADCODE))
    else if d.used > |bs| then Stop(Fail(ERR_TRUNC))
    else if d.sym == 256 then Stop(Done(out, Drop(bs, d.used)))
    else if d.sym < 256 then
      if |out| >= max then Stop(Fail(ERR_OVERFLOW)) else More(Drop(bs, d.used), out + [d.sym])
    else MatchStep(ReadMatch(dl, d.sym - 257, Drop(bs, d.used)), out, max)
  }

  ghost function MatchStep(m: MatchRead, out: seq<byte>, max: nat): Step
    requires if m.MatchRead? then m.dist >= 1 else m.code != 0
  {
    if m.BadMatch? then Stop(Fail(m.code))
    else if |out| < m.dist then Stop(Fail(ERR_BACKREF))
    else if m.err != 0 then Stop(Fail(m.err))
    else if |out| + m.len > max then Stop(Fail(ERR_OVERFLOW))
    else More(m.rest, CopyBack(out, m.dist, m.len))
  }

  ghost function Codes(ll: seq<int>, dl: seq<int>, bs: seq<bit>, out: seq<byte>, max: nat): Outcome
    decreases |bs|
  {
    match CodesStep(ll, dl, bs, out, max)
    case Stop(o) => o
    case More(rest, out') => Codes(ll, dl, rest, out', max)
  }

  /* ---- Every encoding is decoded ---- */

  /** The bits of a match after its length code, followed by rest. */
  function MatchTail(dl: seq<int>, t: Token, rest: seq<bit>): seq<bit>
    requires t.Match? && t.li < 29 && t.di < 30 && Coded(dl, t.di)
  {
    LowBits(t.lx, LenExtra(t.li)) + (CodeWord(dl, t.di) + (LowBits(t.dx, DistExtra(t.di)) + rest))
  }

  lemma Regroup(a: seq<bit>, b: seq<bit>, c: seq<bit>, d: seq<bit>, rest: seq<bit>)
    ensures a + (b + (c + d)) + rest == a + (b + (c + (d + rest)))
  {
  }

  lemma MatchBits(ll: seq<int>, dl: seq<int>, t: Token, rest: seq<bit>)
    requires t.Match? && TokenOk(ll, dl, t)
    ensures TokenBits(ll, dl, t) + rest == CodeWord(ll, 257 + t.li) + MatchTail(dl, t, rest)
  {
    Regroup(CodeWord(ll, 257 + t.li), LowBits(t.lx, LenExtra(t.li)), CodeWord(dl, t.di),
      LowBits(t.dx, DistExtra(t.di)), rest);
  }

  lemma ReadsMatch(ll: seq<int>, dl: seq<int>, t: Token, rest: seq<bit>)
    requires t.Match? && TokenOk(ll, dl, t) && Accepted(dl)
    ensures ReadMatch(dl, t.li, MatchTail(dl, t, rest)) == MatchRead(MatchLen(t), MatchDist(t), 0, rest)
  {
    hide LenBase, LenExtra, DistBase, DistExtra, Take, Drop, DecodeSym, Accepted;
    var r3 := LowBits(t.dx, DistExtra(t.di)) + rest;
    var r2 := CodeWord(dl, t.di) + r3;
    ReadsLow(t.lx, LenExtra(t.li), r2);
    ReadsSymbol(dl, t.di, r3);
    ReadsLow(t.dx, DistExtra(t.di), rest);
  }

  lemma ReadsSymbol(lengths: seq<int>, s: nat, rest: seq<bit>)
    requires Coded(lengths, s) && Accepted(lengths)
    ensures var bs := CodeWord(lengths, s) + rest;
            && DecodeSym(lengths, bs) == Decoded(s, lengths[s]) && lengths[s] <= |bs| && Drop(bs, lengths[s]) == rest
  {
    DecodesCodeWord(lengths, s, rest);
    TakeLow(CodeWord(lengths, s), rest);
  }

  lemma CodesOnLiteral(ll: seq<int>, dl: seq<int>, bs: seq<bit>, out: seq<byte>, max: nat)
    requires var d := DecodeSym(ll, bs); 0 <= d.sym < 256 && d.used <= |bs|
    requires |out| < max
    ensures var d := DecodeSym(ll, bs);
            CodesStep(ll, dl, bs, out, max) == More(Drop(bs, d.used), out + [d.sym])
  {
  }

  lemma CodesOnMatch(ll: seq<int>, dl: seq<int>, bs: seq<bit>, bs1: seq<bit>, m: MatchRead, out: seq<byte>, max: nat)
    requires var d := DecodeSym(ll, bs);
             && d.sym > 256 && d.used <= |bs| && bs1 == Drop(bs, d.used) && m == ReadMatch(dl, d.sym - 257, bs1)
    requires m.MatchRead? && m.err == 0 && m.dist <= |out| && |out| + m.len <= max
    ensures CodesStep(ll, dl, bs, out, max) == More(m.rest, CopyBack(out, m.dist, m.len))
  {
    hide DecodeSym, ReadMatch, CopyBack;
  }

  /** Decoding the bits of one token applies it. */
  lemma DecodesToken(ll: seq<int>, dl: seq<int>, t: Token, rest: seq<bit>, out: seq<byte>, max: nat)
    requires TokenOk(ll, dl, t) && Accepted(ll) && Accepted(dl)
    requires Reaches(out, t) && |Apply(out, t)| <= max
    ensures CodesStep(ll, dl, TokenBits(ll, dl, t) + rest, out, max) == More(rest, Apply(out, t))
  {
    if t.Literal? {
      ReadsSymbol(ll, t.b, rest);
      CodesOnLiteral(ll, dl, CodeWord(ll, t.b) + rest, out, max);
    } else {
      var tail := MatchTail(dl, t, rest);
      MatchBits(ll, dl, t, rest);
      ReadsSymbol(ll, 257 + t.li, tail);
      ReadsMatch(ll, dl, t, rest);
      CodesOnMatch(ll, dl, CodeWord(ll, 257 + t.li) + tail, tail, MatchRead(MatchLen(t), MatchDist(t), 0, rest),
      out, max);
    }
  }

  /** inflate_codes inverts every encoding of every token list, whatever follows it. */
  lemma {:induction false} CodesInvertEncoding(ll: seq<int>, dl: seq<int>, toks: seq<Token>, rest: seq<bit>,
                                               out: seq<byte>, max: nat)
    requires Accepted(ll) && Accepted(dl) && Coded(ll, 256) && TokensOk(ll, dl, toks)
    requires Expandable(out, toks) && |Expand(out, toks)| <= max
    ensures Codes(ll, dl, TokensBits(ll, dl, toks, rest), out, max) == Done(Expand(out, toks), rest)
    decreases |toks|
  {
    if toks == [] {
      DecodesCodeWord(ll, 256, rest);
      TakeLow(CodeWord(ll, 256), rest);
    } else {
      DecodesToken(ll, dl, toks[0], TokensBits(ll, dl, toks[1..], rest), out, max);
      CodesInvertEncoding(ll, dl, toks[1..], rest, Apply(out, toks[0]), max);
    }
  }

  /* ---- Everything decoded is an encoding ---- */

  lemma SymbolRead(lengths: seq<int>, bs: seq<bit>)
    requires var d := DecodeSym(lengths, bs); d.sym != -1 && d.used <= |bs|
    ensures var d := DecodeSym(lengths, bs); Coded(lengths, d.sym) && bs == CodeWord(lengths, d.sym) + Drop(bs, d.used)
  {
    DecodedCodeWord(lengths, bs);
  }

  lemma MatchWasEncoded(dl: seq<int>, li: nat, bs: seq<bit>) returns (t: Token)
    requires ReadMatch(dl, li, bs).MatchRead? && ReadMatch(dl, li, bs).err == 0
    ensures t.Match? && t.li == li < 29 && t.lx < Pow2(LenExtra(li))
    ensures t.di < 30 && t.dx < Pow2(DistExtra(t.di)) && Coded(dl, t.di)
    ensures var m := ReadMatch(dl, li, bs);
            m.len == MatchLen(t) && m.dist == MatchDist(t) && bs == MatchTail(dl, t, m.rest)
  {
    var bs2 := Drop(bs, LenExtra(li));
    LowWasRead(bs, LenExtra(li));
    var d := DecodeSym(dl, bs2);
    SymbolRead(dl, bs2);
    var bs3 := Drop(bs2, d.used);
    LowWasRead(bs3, DistExtra(d.sym));
    t := Match(li, ValueLsb(Take(bs, LenExtra(li))), d.sym, ValueLsb(Take(bs3, DistExtra(d.sym))));
  }

  /** If decoding finishes, the bits read were the code of some token list and the output is
      its expansion. */
  lemma {:induction false} DecodedIsEncoding(ll: seq<int>, dl: seq<int>, bs: seq<bit>, out: seq<byte>, max: nat)
    returns (toks: seq<Token>)
    requires Codes(ll, dl, bs, out, max).Done?
    ensures Coded(ll, 256) && TokensOk(ll, dl, toks) && Expandable(out, toks)
    ensures var r := Codes(ll, dl, bs, out, max);
            bs == TokensBits(ll, dl, toks, r.rest) && r.out == Expand(out, toks)
    decreases |bs|
  {
    var d := DecodeSym(ll, bs);
    SymbolRead(ll, bs);
    if d.sym == 256 {
      toks := [];
    } else {
      var t, next := TokenRead(ll, dl, bs, out, max);
      var more := DecodedIsEncoding(ll, dl, next, Apply(out, t), max);
      toks := [t] + more;
      PrependToken(ll, dl, t, more, Codes(ll, dl, bs, out, max).rest, out);
    }
  }

  lemma PrependToken(ll: seq<int>, dl: seq<int>, t: Token, more: seq<Token>, rest: seq<bit>, out: seq<byte>)
    requires TokenOk(ll, dl, t) && TokensOk(ll, dl, more) && Coded(ll, 256)
    requires Reaches(out, t) && Expandable(Apply(out, t), more)
    ensures TokensOk(ll, dl, [t] + more) && Expandable(out, [t] + more)
    ensures TokensBits(ll, dl, [t] + more, rest) == TokenBits(ll, dl, t) + TokensBits(ll, dl, more, rest)
    ensures Expand(out, [t] + more) == Expand(Apply(out, t), more)
  {
    assert ([t] + more)[1..] == more;
  }

  lemma TokenRead(ll: seq<int>, dl: seq<int>, bs: seq<bit>, out: seq<byte>, max: nat) returns (t: Token, next: seq<bit>)
    requires Codes(ll, dl, bs, out, max).Done? && DecodeSym(ll, bs).sym != 256
    ensures TokenOk(ll, dl, t) && Reaches(out, t) && |next| < |bs|
    ensures bs == TokenBits(ll, dl, t) + next
    ensures CodesStep(ll, dl, bs, out, max) == More(next, Apply(out, t))
  {
    hide DecodeSym, ReadMatch, CopyBack;
    var d := DecodeSym(ll, bs);
    SymbolRead(ll, bs);
    var bs1 := Drop(bs, d.used);
    if d.sym < 256 {
      t, next := Literal(d.sym), bs1;
      CodesOnLiteral(ll, dl, bs, out, max);
    } else {
      t := MatchWasEncoded(dl, d.sym - 257, bs1);
      next := ReadMatch(dl, d.sym - 257, bs1).rest;
      MatchBits(ll, dl, t, next);
      CodesOnMatch(ll, dl, bs, bs1, ReadMatch(dl, d.sym - 257, bs1), out, max);
    }
  }

  /** The lengths of each symbol follow those of the one before; the last symbol stands for 258 alone. */
  lemma LengthTable(li: nat)
    requires li < 29
    ensures LenBase(0) == 3 && LenBase(28) == 258
    ensures li < 27 ==> LenBase(li + 1) == LenBase(li) + Pow2(LenExtra(li))
    ensures LenExtra(li) == if li < 8 || li == 28 then 0 else (li - 4) / 4
  {
    hide Pow2;
    LenExtraIs(li);
    if li < 27 {
      SmallPowers(LenExtra(li));
    }
  }

  lemma LenExtraIs(li: nat)
    requires li < 29
    ensures LenExtra(li) == if li < 8 || li == 28 then 0 else (li - 4) / 4
  {
  }

  /** The distances of each symbol follow those of the one before. */
  lemma DistanceTable(di: nat)
    requires di < 30
    ensures DistBase(0) == 1
    ensures di < 29 ==> DistBase(di + 1) == DistBase(di) + Pow2(DistExtra(di))
    ensures DistExtra(di) == if di < 4 then 0 else di / 2 - 1
  {
    hide Pow2;
    DistExtraIs(di);
    if di < 29 {
      SmallPowers(DistExtra(di));
    }
  }

  lemma DistExtraIs(di: nat)
    requires di < 30
    ensures DistExtra(di) == if di < 4 then 0 else di / 2 - 1
  {
  }

  lemma SmallPowers(k: nat)
    requires k <= 13
    ensures Pow2(k) == [1, 2, 4, 8, 16, 32, 64, 128, 256, 512, 1024, 2048, 4096, 8192][k]
  {
    assert Pow2(0) == 1 && Pow2(1) == 2 && Pow2(2) == 4 && Pow2(3) == 8 && Pow2(4) == 16 && Pow2(5) == 32;
    assert Pow2(6) == 64 && Pow2(7) == 128 && Pow2(8) == 256 && Pow2(9) == 512 && Pow2(10) == 1024;
    assert Pow2(11) == 2048 && Pow2(12) == 4096 && Pow2(13) == 8192;
  }

  /** Every length 3..258 and distance 1..32768 has symbols and extra bits. */
  lemma LengthHasSymbol(len: nat) returns (li: nat, lx: nat)
    requires 3 <= len <= 258
    ensures li < 29 && lx < Pow2(LenExtra(li)) && LenBase(li) + lx == len
  {
    assert Pow2(0) == 1 && Pow2(1) == 2 && Pow2(2) == 4 && Pow2(3) == 8 && Pow2(4) == 16 && Pow2(5) == 32;
    li := 0;
    while li < 27 && LENS[li + 1] <= len
      invariant li <= 27 && LENS[li] <= len
    {
      li := li + 1;
    }
    lx := len - LENS[li];
    if len == 258 {
      li, lx := 28, 0;
    }
  }

  lemma DistanceHasSymbol(dist: nat) returns (di: nat, dx: nat)
    requires 1 <= dist <= 32768
    ensures di < 30 && dx < Pow2(DistExtra(di)) && DistBase(di) + dx == dist
  {
    assert Pow2(0) == 1 && Pow2(1) == 2 && Pow2(2) == 4 && Pow2(3) == 8 && Pow2(4) == 16 && Pow2(5) == 32;
    assert Pow2(6) == 64 && Pow2(7) == 128 && Pow2(8) == 256 && Pow2(9) == 512 && Pow2(10) == 1024;
    assert Pow2(11) == 2048 && Pow2(12) == 4096 && Pow2(13) == 8192;
    di := 0;
    while di < 29 && DISTS[di + 1] <= dist
      invariant di <= 29 && DISTS[di] <= dist
    {
      di := di + 1;
    }
    dx := dist - DISTS[di];
  }

  /* ---- The decoder in place ---- */

  /** Copies a match byte by byte while there is room. */
  method CopyMatch(s: Inf, dist: nat, length: nat)
    requires s.Valid() && 1 <= dist <= s.outPos
    modifies s`outPos, s`err, s.out
    ensures s.Valid() && s.Pending() == old(s.Pending()) && old(s.Written()) <= s.Written()
    ensures old(s.err) != 0 ==> s.err == old(s.err)
    ensures old(s.err) == 0 ==>
              if |old(s.Written())| + length <= s.outMax
              then s.err == 0 && s.Written() == CopyBack(old(s.Written()), dist, length)
              else s.err == ERR_OVERFLOW
  {
    var len := length;
    while len > 0 && s.err == 0
      invariant s.Valid() && s.Pending() == old(s.Pending()) && old(s.Written()) <= s.Written()
      invariant 0 <= len <= length && dist <= s.outPos
      invariant old(s.err) != 0 ==> s.err == old(s.err)
      invariant old(s.err) == 0 && s.err == 0 ==>
                  s.outPos + len == old(s.outPos) + length &&
                  CopyBack(s.Written(), dist, len) == CopyBack(old(s.Written()), dist, length)
      invariant old(s.err) == 0 && s.err != 0 ==> s.err == ERR_OVERFLOW && old(s.outPos) + length > s.outMax
      decreases len, if s.err == 0 then 1 else 0
    {
      len := len - 1;
      s.Emit(s.out[s.outPos - dist]);
    }
  }

  /** Reads what follows length symbol 257 + li; ok is false when decoding must stop. */
  method DecodeMatch(s: Inf, dc: Huffman, li: int, ghost dl: seq<int>) returns (ok: bool, len: nat, dist: nat)
    requires s.Valid() && dc.TableOf(dl) && s.err == 0
    modifies s`inPos, s`bitBuf, s`bitCnt, s`err
    ensures s.Valid() && |s.Pending()| <= |old(s.Pending())|
    ensures if ok then dist >= 1 else s.err != 0
    ensures Accepted(dl) && li >= 0 ==>
              match ReadMatch(dl, li, old(s.Pending()))
              case BadMatch(code) => !ok && s.err == code
              case MatchRead(l, d, err, rest) => ok && len == l && dist == d && s.err == err && s.Pending() == rest
  {
    hide Inf.Pending, Inf.Valid, Huffman.TableOf, Accepted, DecodeSym, ValueLsb, Take, Drop;
    hide LenBase, LenExtra, DistBase, DistExtra;
    ok, len, dist := false, 0, 0;
    if li < 0 || li >= 29 {
      s.SetErr(ERR_BADCODE);
      return;
    }
    ghost var bs := s.Pending();
    var lx := s.Bits(LenExtra(li));
    len := LenBase(li) + lx;
    var di := Decode(s, dc, dl);
    if s.err != 0 {
      return;
    }
    if di < 0 || di >= 30 {
      s.SetErr(ERR_BADCODE);
      return;
    }
    var dx := s.Bits(DistExtra(di));
    dist := DistBase(di) + dx;
    ok := true;
  }

  /** One turn of the decoding loop; stop is set at the end of the block. */
  method InflateStep(s: Inf, lc: Huffman, dc: Huffman, ghost ll: seq<int>, ghost dl: seq<int>) returns (stop: bool)
    requires s.Valid() && s.err == 0 && lc.TableOf(ll) && dc.TableOf(dl)
    modifies s`inPos, s`bitBuf, s`bitCnt, s`err, s`outPos, s.out
    ensures s.Valid() && old(s.Written()) <= s.Written()
    ensures s.err == 0 ==> |s.Pending()| < |old(s.Pending())|
    ensures Accepted(ll) && Accepted(dl) ==>
              match CodesStep(ll, dl, old(s.Pending()), old(s.Written()), s.outMax)
              case Stop(Done(o, r)) => stop && s.err == 0 && s.Written() == o && s.Pending() == r
              case Stop(Fail(e)) => s.err == e
              case More(r, o) => !stop && s.err == 0 && s.Written() == o && s.Pending() == r
  {
    hide Inf.Pending, Huffman.TableOf, Accepted, DecodeSym, ReadMatch, CopyBack;
    stop := false;
    var sym := Decode(s, lc, ll);
    if s.err != 0 {
      return;
    }
    if sym < 256 {
      s.Emit(sym % 256);
    } else if sym == 256 {
      stop := true;
    } else {
      ghost var bs := s.Pending();
      var ok, len, dist := DecodeMatch(s, dc, sym - 257, dl);
      if !ok {
        return;
      }
      if s.outPos < dist {
        s.SetErr(ERR_BACKREF);
        return;
      }
      CopyMatch(s, dist, len);
    }
  }

  /** Decodes until the end of the block or an error. */
  method InflateBlock(s: Inf, lc: Huffman, dc: Huffman, ghost ll: seq<int>, ghost dl: seq<int>)
    requires s.Valid() && lc.TableOf(ll) && dc.TableOf(dl)
    modifies s`inPos, s`bitBuf, s`bitCnt, s`err, s`outPos, s.out
    ensures s.Valid() && old(s.Written()) <= s.Written()
    ensures s.err == 0 ==> |s.Pending()| <= |old(s.Pending())|
    ensures old(s.err) != 0 ==> s.err == old(s.err)
    ensures old(s.err) == 0 && Accepted(ll) && Accepted(dl) ==>
              match Codes(ll, dl, old(s.Pending()), old(s.Written()), s.outMax)
              case Done(o, r) => s.err == 0 && s.Written() == o && s.Pending() == r
              case Fail(e) => s.err == e != 0
  {
    hide Inf.Pending, Huffman.TableOf, Accepted, CodesStep, Take;
    ghost var good := Accepted(ll) && Accepted(dl);
    ghost var result := Codes(ll, dl, s.Pending(), s.Written(), s.outMax);
    while s.err == 0
      invariant s.Valid() && old(s.Written()) <= s.Written()
      invariant lc.TableOf(ll) && dc.TableOf(dl)
      invariant s.err == 0 ==> |s.Pending()| <= |old(s.Pending())|
      invariant old(s.err) != 0 ==> s.err == old(s.err)
      invariant good && s.err == 0 ==> result == Codes(ll, dl, s.Pending(), s.Written(), s.outMax)
      invariant good && old(s.err) == 0 && s.err != 0 ==> result == Fail(s.err)
      decreases if s.err == 0 then |s.Pending()| + 1 else 0
    {
      var stop := InflateStep(s, lc, dc, ll, dl);
      if stop && s.err == 0 {
        return;
      }
    }
  }
}
