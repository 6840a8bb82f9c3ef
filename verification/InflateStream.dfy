/** Whole deflate streams: stored, fixed and dynamic blocks up to the final one. */
module InflateStream {
  import opened Bits
  import opened LittleEndian
  import opened InflateReader
  import opened InflateTable
  import opened InflateCodes
  import opened InflateHeader
  import opened InflateStored
  import opened Lz

  /** Returned by the model where the C code would run past its length array. */
  const ERR_UNDEFINED := -100

  /* ---- The fixed code (section 3.2.6) ---- */

  function Run(n: nat, v: int): (r: seq<int>)
    ensures |r| == n && forall k | 0 <= k < n :: r[k] == v
  {
    seq(n, _ => v)
  }

  function FixedLit(): (r: seq<int>)
    ensures |r| == MAXLCODES
  {
    Run(144, 8) + (Run(112, 9) + (Run(24, 7) + Run(8, 8)))
  }

  function FixedDist(): (r: seq<int>)
    ensures |r| == 30
  {
    Run(30, 5)
  }

  lemma {:induction false} CountRun(n: nat, v: int, l: int)
    ensures CountLen(Run(n, v), l) == if v == l then n else 0
  {
    if n > 0 {
      assert Run(n, v)[..n - 1] == Run(n - 1, v);
      CountRun(n - 1, v, l);
    }
  }

  lemma {:induction false} CountAppend(a: seq<int>, b: seq<int>, l: int)
    ensures CountLen(a + b, l) == CountLen(a, l) + CountLen(b, l)
  {
    if b == [] {
      assert a + b == a;
    } else {
      assert (a + b)[..|a + b| - 1] == a + b[..|b| - 1];
      CountAppend(a, b[..|b| - 1], l);
    }
  }

  lemma CountFixed(l: int)
    ensures CountLen(FixedLit(), l) == if l == 7 then 24 else if l == 8 then 152 else if l == 9 then 112 else 0
    ensures CountLen(FixedDist(), l) == if l == 5 then 30 else 0
  {
    CountRun(144, 8, l);
    CountRun(112, 9, l);
    CountRun(24, 7, l);
    CountRun(8, 8, l);
    CountRun(30, 5, l);
    CountAppend(Run(24, 7), Run(8, 8), l);
    CountAppend(Run(112, 9), Run(24, 7) + Run(8, 8), l);
    CountAppend(Run(144, 8), Run(112, 9) + (Run(24, 7) + Run(8, 8)), l);
  }

  /** A stretch of equal lengths counts in full or not at all. */
  lemma {:induction false} CountStretch(lengths: seq<int>, a: nat, b: nat, v: int, l: int)
    requires a <= b <= |lengths| && forall k | a <= k < b :: lengths[k] == v
    ensures CountLen(lengths[..b], l) == CountLen(lengths[..a], l) + if v == l then b - a else 0
  {
    if a < b {
      assert lengths[..b][..b - 1] == lengths[..b - 1];
      CountStretch(lengths, a, b - 1, v, l);
    }
  }

  lemma FirstFixed()
    ensures First(FixedLit(), 7) == 0 && First(FixedLit(), 8) == 0x30 && First(FixedLit(), 9) == 0x190
    ensures First(FixedDist(), 5) == 0
  {
    hide CountLen, FixedLit, FixedDist;
    CountFixed(1);
    CountFixed(2);
    CountFixed(3);
    CountFixed(4);
    CountFixed(5);
    CountFixed(6);
    CountFixed(7);
    CountFixed(8);
  }

  lemma RankFixed(s: nat)
    requires s < MAXLCODES
    ensures var n := FixedLit()[s];
            && n == (if s < 144 then 8 else if s < 256 then 9 else if s < 280 then 7 else 8)
            && CountLen(FixedLit()[..s], n) ==
               if s < 144 then s else if s < 256 then s - 144 else if s < 280 then s - 256 else s - 136
  {
    var ls, n := FixedLit(), FixedLit()[s];
    hide CountLen, FixedLit;
    CountNone(ls, n);
    CountStretch(ls, 0, if s < 144 then s else 144, 8, n);
    if s >= 144 {
      CountStretch(ls, 144, if s < 256 then s else 256, 9, n);
    }
    if s >= 256 {
      CountStretch(ls, 256, if s < 280 then s else 280, 7, n);
    }
    if s >= 280 {
      CountStretch(ls, 280, s, 8, n);
    }
  }

  lemma CountNone(lengths: seq<int>, l: int)
    ensures CountLen(lengths[..0], l) == 0
  {
  }

  lemma CodeWordIs(lengths: seq<int>, s: nat, l: nat, first: nat, rank: nat)
    requires s < |lengths| && lengths[s] == l && 1 <= l <= MAXBITS
    requires First(lengths, l) == first && CountLen(lengths[..s], l) == rank
    ensures Coded(lengths, s) && CodeWord(lengths, s) == MsbBits(first + rank, l)
  {
    hide First, CountLen, MsbBits;
  }

  /** The fixed code words of section 3.2.6. */
  lemma FixedCodes(s: nat)
    requires s < MAXLCODES
    ensures Coded(FixedLit(), s)
    ensures CodeWord(FixedLit(), s) ==
            if s < 144 then MsbBits(0x30 + s, 8)
            else if s < 256 then MsbBits(0x190 + (s - 144), 9)
            else if s < 280 then MsbBits(s - 256, 7)
            else MsbBits(0xC0 + (s - 280), 8)
  {
    hide First, CountLen, FixedLit, MsbBits, CodeWord, Coded;
    RankFixed(s);
    FirstFixed();
    if s < 144 {
      CodeWordIs(FixedLit(), s, 8, 0x30, s);
    } else if s < 256 {
      CodeWordIs(FixedLit(), s, 9, 0x190, s - 144);
    } else if s < 280 {
      CodeWordIs(FixedLit(), s, 7, 0, s - 256);
    } else {
      CodeWordIs(FixedLit(), s, 8, 0x30, s - 136);
    }
  }

  lemma FixedDistanceCodes(s: nat)
    requires s < 30
    ensures Coded(FixedDist(), s) && CodeWord(FixedDist(), s) == MsbBits(s, 5)
  {
    CountStretch(FixedDist(), 0, s, 5, 5);
    assert FixedDist()[s] == 5;
    hide First, CountLen, FixedDist, MsbBits, CodeWord, Coded;
    CountNone(FixedDist(), 5);
    FirstFixed();
    CodeWordIs(FixedDist(), s, 5, 0, s);
  }

  lemma {:induction false} LeftFixed(l: nat)
    ensures Left(FixedLit(), l) == if l < 7 then Pow2(l) else if l == 7 then 104 else if l == 8 then 56 else 0
    ensures Left(FixedDist(), l) == if l < 5 then Pow2(l) else 2 * Pow2(l - 5)
  {
    hide CountLen, FixedLit, FixedDist;
    if l > 0 {
      LeftFixed(l - 1);
      CountFixed(l);
      if l == 7 {
        assert Pow2(6) == 64;
      } else if l == 5 {
        assert Pow2(4) == 16 && Pow2(0) == 1;
      }
    }
  }

  /** The fixed literal/length code is complete and the fixed distance code is not oversubscribed. */
  lemma FixedAccepted()
    ensures Accepted(FixedLit()) && Left(FixedLit(), MAXBITS) == 0
    ensures Accepted(FixedDist())
  {
    hide Left, FixedLit, FixedDist;
    forall l | 1 <= l <= MAXBITS ensures Left(FixedLit(), l) >= 0 && Left(FixedDist(), l) >= 0 {
      LeftFixed(l);
    }
    LeftFixed(15);
  }

  /* ---- What the decoder does with any bits ---- */

  /** An outcome, or a stream that reaches a header whose effect is not defined. */
  datatype Result = Known(o: Outcome) | Unspecified

  ghost function Dynamic(bs: seq<bit>, out: seq<byte>, max: nat): Result {
    match ReadHeader(bs)
    case Tables(ll, dl, rest) => Known(Codes(ll, dl, rest, out, max))
    case BadHeader(code) => Known(Fail(code))
    case Undefined => Unspecified
  }

  ghost function BlockOf(kind: nat, bs: seq<bit>, out: seq<byte>, max: nat): Result {
    if kind == 0 then Known(Stored(bs, out, max))
    else if kind == 1 then Known(Codes(FixedLit(), FixedDist(), bs, out, max))
    else if kind == 2 then Dynamic(bs, out, max)
    else Known(Fail(ERR_BADBLOCK))
  }

  lemma {:induction false} CodesShrink(ll: seq<int>, dl: seq<int>, bs: seq<bit>, out: seq<byte>, max: nat)
    ensures var o := Codes(ll, dl, bs, out, max); if o.Done? then |o.rest| <= |bs| else o.code != 0
    decreases |bs|
  {
    hide CodesStep;
    match CodesStep(ll, dl, bs, out, max)
    case Stop(o) => StopShrinks(ll, dl, bs, out, max);
    case More(rest, out') => CodesShrink(ll, dl, rest, out', max);
  }

  lemma StopShrinks(ll: seq<int>, dl: seq<int>, bs: seq<bit>, out: seq<byte>, max: nat)
    ensures match CodesStep(ll, dl, bs, out, max)
            case Stop(Done(_, rest)) => |rest| <= |bs|
            case _ => true
  {
    hide DecodeSym, ReadMatch;
  }

  lemma BlockShrinks(kind: nat, bs: seq<bit>, out: seq<byte>, max: nat)
    ensures match BlockOf(kind, bs, out, max)
            case Known(Done(_, rest)) => |rest| <= |bs|
            case Known(Fail(code)) => code != 0
            case Unspecified => true
  {
    hide Codes, Stored, ReadHeader;
    CodesShrink(FixedLit(), FixedDist(), bs, out, max);
    var h := ReadHeader(bs);
    if h.Tables? {
      CodesShrink(h.ll, h.dl, h.rest, out, max);
    }
  }

  ghost function InflateAll(bs: seq<bit>, out: seq<byte>, max: nat): Result
    decreases |bs|
  {
    if 3 > |bs| then Known(Fail(ERR_TRUNC))
    else
      var r := BlockOf(ValueLsb(Take(Drop(bs, 1), 2)), Drop(bs, 3), out, max);
      BlockShrinks(ValueLsb(Take(Drop(bs, 1), 2)), Drop(bs, 3), out, max);
      match r
      case Known(Done(out', rest)) =>
        if ValueLsb(Take(bs, 1)) == 1 then r else InflateAll(rest, out', max)
      case Known(Fail(_)) => r
      case Unspecified => r
  }

  /* ---- Streams of blocks and their bits ---- */

  datatype Block =
    | StoredBlock(pad: seq<bit>, data: seq<byte>)
    | FixedBlock(toks: seq<Token>)
    | DynamicBlock(h: Header, toks: seq<Token>)

  function Kind(b: Block): nat {
    match b
    case StoredBlock(_, _) => 0
    case FixedBlock(_) => 1
    case DynamicBlock(_, _) => 2
  }

  /** Everything but the padding of stored blocks, which depends on the bits that follow. */
  ghost predicate BlockOk(b: Block) {
    match b
    case StoredBlock(pad, data) => |pad| < 8 && |data| <= 65535
    case FixedBlock(toks) => TokensOk(FixedLit(), FixedDist(), toks)
    case DynamicBlock(h, toks) =>
      HeaderOk(h) && Coded(LitLengths(h), 256) && TokensOk(LitLengths(h), DistLengths(h), toks)
  }

  lemma FixedEndCoded()
    ensures Coded(FixedLit(), 256)
  {
    assert FixedLit()[256] == 7;
  }

  /** The bits of one block after its three header bits, followed by rest. */
  ghost function BlockBits(b: Block, rest: seq<bit>): seq<bit>
    requires BlockOk(b)
  {
    match b
    case StoredBlock(pad, data) => pad + (BytesToBits(StoredBytes(data)) + rest)
    case FixedBlock(toks) => FixedEndCoded(); TokensBits(FixedLit(), FixedDist(), toks, rest)
    case DynamicBlock(h, toks) => HeaderBits(h, TokensBits(LitLengths(h), DistLengths(h), toks, rest))
  }

  /** A stored block ends on a byte boundary of the whole input. */
  ghost predicate Fits(b: Block, rest: seq<bit>) {
    b.StoredBlock? ==> |rest| % 8 == 0
  }

  ghost predicate BlocksOk(blocks: seq<Block>) {
    forall k | 0 <= k < |blocks| :: BlockOk(blocks[k])
  }

  ghost function StreamBits(blocks: seq<Block>, rest: seq<bit>): seq<bit>
    requires BlocksOk(blocks)
    decreases |blocks|
  {
    if blocks == [] then rest
    else
      [if |blocks| == 1 then 1 else 0] +
      (LowBits(Kind(blocks[0]), 2) + BlockBits(blocks[0], StreamBits(blocks[1..], rest)))
  }

  ghost predicate StreamFits(blocks: seq<Block>, rest: seq<bit>)
    requires BlocksOk(blocks)
    decreases |blocks|
  {
    blocks != [] ==> Fits(blocks[0], StreamBits(blocks[1..], rest)) && StreamFits(blocks[1..], rest)
  }

  ghost predicate BlockExpandable(out: seq<byte>, b: Block) {
    match b
    case StoredBlock(_, _) => true
    case FixedBlock(toks) => Expandable(out, toks)
    case DynamicBlock(_, toks) => Expandable(out, toks)
  }

  ghost function ExpandBlock(out: seq<byte>, b: Block): (r: seq<byte>)
    requires BlockExpandable(out, b)
    ensures |r| >= |out|
  {
    match b
    case StoredBlock(_, data) => out + data
    case FixedBlock(toks) => Expand(out, toks)
    case DynamicBlock(_, toks) => Expand(out, toks)
  }

  ghost predicate StreamExpandable(out: seq<byte>, blocks: seq<Block>)
    decreases |blocks|
  {
    blocks != [] ==> BlockExpandable(out, blocks[0]) && StreamExpandable(ExpandBlock(out, blocks[0]), blocks[1..])
  }

  ghost function ExpandStream(out: seq<byte>, blocks: seq<Block>): (r: seq<byte>)
    requires StreamExpandable(out, blocks)
    ensures |r| >= |out|
    decreases |blocks|
  {
    if blocks == [] then out else ExpandStream(ExpandBlock(out, blocks[0]), blocks[1..])
  }

  /* ---- Every stream is decoded ---- */

  lemma ReadsBlock(b: Block, rest: seq<bit>, out: seq<byte>, max: nat)
    requires BlockOk(b) && Fits(b, rest) && BlockExpandable(out, b) && |ExpandBlock(out, b)| <= max
    ensures BlockOf(Kind(b), BlockBits(b, rest), out, max) == Known(Done(ExpandBlock(out, b), rest))
  {
    hide Codes, InflateStored.Stored, ReadHeader, HeaderBits, TokensBits, Accepted, FixedLit, FixedDist;
    match b
    case StoredBlock(pad, data) =>
      ReadsStored(pad, data, rest, out, max);
    case FixedBlock(toks) =>
      FixedAccepted();
      FixedEndCoded();
      CodesInvertEncoding(FixedLit(), FixedDist(), toks, rest, out, max);
    case DynamicBlock(h, toks) =>
      ReadsHeader(h, TokensBits(LitLengths(h), DistLengths(h), toks, rest));
      CodesInvertEncoding(LitLengths(h), DistLengths(h), toks, rest, out, max);
  }

  lemma ReadsBlockHead(last: bit, kind: nat, rest: seq<bit>)
    requires kind < 4
    ensures var bs := [last] + (LowBits(kind, 2) + rest);
            && ValueLsb(Take(bs, 1)) == last && ValueLsb(Take(Drop(bs, 1), 2)) == kind
            && Drop(bs, 3) == rest && 3 <= |bs|
  {
    hide Take, Drop;
    assert Pow2(1) == 2 && Pow2(2) == 4;
    assert LowBits(last, 1) == [last];
    ReadsLow(last, 1, LowBits(kind, 2) + rest);
    ReadsLow(kind, 2, rest);
    ReadOn(0, [last] + (LowBits(kind, 2) + rest), 1, 2);
  }

  /** The decoder inverts every encoding of every stream of blocks that fits the output. */
  lemma {:induction false} InflateInvertsEncoding(blocks: seq<Block>, rest: seq<bit>, out: seq<byte>, max: nat)
    requires blocks != [] && BlocksOk(blocks) && StreamFits(blocks, rest)
    requires StreamExpandable(out, blocks) && |ExpandStream(out, blocks)| <= max
    ensures InflateAll(StreamBits(blocks, rest), out, max) == Known(Done(ExpandStream(out, blocks), rest))
    decreases |blocks|
  {
    hide BlockOf, BlockBits, BlockExpandable, ExpandBlock, Fits, BlockOk, Take, Drop;
    var b, more := blocks[0], blocks[1..];
    var tail := StreamBits(more, rest);
    ReadsBlockHead(if |blocks| == 1 then 1 else 0, Kind(b), BlockBits(b, tail));
    ReadsBlock(b, tail, out, max);
    if more != [] {
      InflateInvertsEncoding(more, rest, ExpandBlock(out, b), max);
    }
  }

  /** v with its n low bits in the opposite order. */
  function Mirror(v: nat, n: nat): nat {
    if n == 0 then 0 else Mirror(v / 2, n - 1) + Pow2(n - 1) * (v % 2)
  }

  lemma {:induction false} MirrorValue(v: nat, n: nat)
    ensures ValueLsb(MsbBits(v, n)) == Mirror(v, n)
  {
    if n > 0 {
      MirrorValue(v / 2, n - 1);
      ValueLsbAppend(MsbBits(v / 2, n - 1), [v % 2]);
      assert ValueLsb([v % 2]) == v % 2;
    }
  }

  /** The value of a code word of the fixed code before further bits. */
  lemma CodeBefore(v: nat, n: nat, rest: seq<bit>)
    ensures ValueLsb(MsbBits(v, n) + rest) == Mirror(v, n) + Pow2(n) * ValueLsb(rest)
  {
    MirrorValue(v, n);
    ValueLsbAppend(MsbBits(v, n), rest);
  }

  lemma MirrorLiteral()
    ensures Mirror(0x91, 8) == 0x89
  {
    hide Mirror;
    SmallPowers(0);
    SmallPowers(1);
    SmallPowers(2);
    SmallPowers(3);
    SmallPowers(4);
    SmallPowers(5);
    SmallPowers(6);
    SmallPowers(7);
    hide Pow2;
    MirrorStep(0x91, 8);
    MirrorStep(0x48, 7);
    MirrorStep(0x24, 6);
    MirrorStep(0x12, 5);
    MirrorStep(0x9, 4);
    MirrorStep(0x4, 3);
    MirrorStep(0x2, 2);
    MirrorStep(0x1, 1);
    MirrorStep(0, 0);
  }

  lemma MirrorStep(v: nat, n: nat)
    ensures Mirror(v, n) == if n == 0 then 0 else Mirror(v / 2, n - 1) + Pow2(n - 1) * (v % 2)
  {
  }

  lemma ExampleMirrors()
    ensures Mirror(0x91, 8) == 0x89 && Mirror(1, 7) == 0x40 && Mirror(0, 5) == 0 && Mirror(0, 7) == 0
    ensures Pow2(8) == 256 && Pow2(7) == 128 && Pow2(5) == 32
  {
    MirrorLiteral();
  }

  lemma ExampleNumbers()
    ensures Num([0x4b, 0x04, 0x02, 0x00]) == 0x2044b && LowBits(1, 2) == [1, 0] && ValueLsb([0, 0]) == 0
  {
    var s := [0x4b, 0x04, 0x02, 0x00];
    assert s[1..] == [0x04, 0x02, 0x00] && s[1..][1..] == [0x02, 0x00] && s[1..][1..][1..] == [0x00];
  }

  lemma ExampleTokens(rest: seq<bit>)
    ensures var a, m := Literal(0x61), Match(0, 0, 0, 0);
            && TokensOk(FixedLit(), FixedDist(), [a, m]) && Coded(FixedLit(), 256)
            && TokensBits(FixedLit(), FixedDist(), [a, m], rest) ==
               MsbBits(0x91, 8) + (MsbBits(1, 7) + (MsbBits(0, 5) + (MsbBits(0, 7) + rest)))
  {
    hide CodeWord, Coded, FixedLit, FixedDist, MsbBits;
    var a, m := Literal(0x61), Match(0, 0, 0, 0);
    FixedCodes(0x61);
    FixedCodes(256);
    FixedCodes(257);
    FixedDistanceCodes(0);
    assert [a, m][1..] == [m] && [m][1..] == [];
    var ll, dl := FixedLit(), FixedDist();
    var end := CodeWord(ll, 256) + rest;
    assert TokensBits(ll, dl, [m], rest) == TokenBits(ll, dl, m) + end;
    assert TokenBits(ll, dl, m) + end == MsbBits(1, 7) + (MsbBits(0, 5) + end);
  }

  lemma ExampleCopy()
    ensures CopyBack([0x61], 1, 3) == [0x61, 0x61, 0x61, 0x61]
  {
    var one := [0x61];
    CopyBackIs(one, 1, 3);
    hide CopyBack;
    var r := CopyBack(one, 1, 3);
    assert r[0] == r[..1][0] && r[1] == r[0] && r[2] == r[1] && r[3] == r[2];
  }

  lemma ExpandOne(next: seq<byte>, toks: seq<Token>, out: seq<byte>, t: Token)
    requires Reaches(out, t) && Apply(out, t) == next && Expandable(next, toks)
    ensures Expandable(out, [t] + toks) && Expand(out, [t] + toks) == Expand(next, toks)
  {
    assert ([t] + toks)[1..] == toks;
  }

  lemma ExampleExpands()
    ensures var a, m := Literal(0x61), Match(0, 0, 0, 0);
            Expandable([], [a, m]) && Expand([], [a, m]) == [0x61, 0x61, 0x61, 0x61]
  {
    hide CopyBack;
    var a, m := Literal(0x61), Match(0, 0, 0, 0);
    var one, four: seq<byte> := [0x61], [0x61, 0x61, 0x61, 0x61];
    ExampleCopy();
    assert Reaches([], a) && Apply([], a) == one && Reaches(one, m) && Apply(one, m) == four;
    ExpandOne(four, [], one, m);
    ExpandOne(one, [m], [], a);
    assert [a] + [m] == [a, m] && [m] + [] == [m];
  }

  lemma ExampleStream(toks: seq<Token>)
    requires toks == [Literal(0x61), Match(0, 0, 0, 0)]
    ensures BlocksOk([FixedBlock(toks)])
    ensures StreamBits([FixedBlock(toks)], [0, 0]) == BytesToBits([0x4b, 0x04, 0x02, 0x00])
  {
    hide TokensBits, TokensOk, Mirror, MsbBits, Pow2, BytesToBits, ValueLsb, Num, LowBits;
    var bytes, rest := [0x4b, 0x04, 0x02, 0x00], [0, 0];
    ExampleTokens(rest);
    ExampleMirrors();
    ExampleNumbers();
    var b3 := MsbBits(0, 7) + rest;
    var b2 := MsbBits(0, 5) + b3;
    var b1 := MsbBits(1, 7) + b2;
    var b0 := MsbBits(0x91, 8) + b1;
    CodeBefore(0, 7, rest);
    CodeBefore(0, 5, b3);
    CodeBefore(1, 7, b2);
    CodeBefore(0x91, 8, b1);
    assert [FixedBlock(toks)][1..] == [];
    var bs := [1] + (LowBits(1, 2) + b0);
    assert bs == [1, 1, 0] + b0;
    HeadBits(b0);
    NumOfBits(bytes);
    LowBitsOfValue(bs);
    LowBitsOfValue(BytesToBits(bytes));
  }

  lemma HeadBits(b: seq<bit>)
    ensures ValueLsb([1, 1, 0] + b) == 3 + 8 * ValueLsb(b)
  {
    ValueLsbAppend([1, 1, 0], b);
    assert [1, 1, 0][1..] == [1, 0] && [1, 0][1..] == [0] && [0][1..] == [];
  }

  /** A literal, a match of three bytes at distance one and the end of the block, in the fixed code. */
  lemma Example(max: nat)
    requires max >= 4
    ensures InflateAll(BytesToBits([0x4b, 0x04, 0x02, 0x00]), [], max) == Known(Done([0x61, 0x61, 0x61, 0x61], [0, 0]))
  {
    hide InflateAll, BytesToBits, TokensBits, TokensOk, Expandable, Expand, StreamBits, FixedLit, FixedDist;
    var toks := [Literal(0x61), Match(0, 0, 0, 0)];
    var blocks := [FixedBlock(toks)];
    ExampleStream(toks);
    ExampleExpands();
    assert blocks[1..] == [];
    InflateInvertsEncoding(blocks, [0, 0], [], max);
  }

  /* ---- Everything decoded is a stream ---- */

  lemma BlockWasRead(kind: nat, bs: seq<bit>, out: seq<byte>, max: nat) returns (b: Block)
    requires var r := BlockOf(kind, bs, out, max); r.Known? && r.o.Done?
    ensures BlockOk(b) && Kind(b) == kind && BlockExpandable(out, b)
    ensures var o := BlockOf(kind, bs, out, max).o;
            Fits(b, o.rest) && bs == BlockBits(b, o.rest) && o.out == ExpandBlock(out, b)
  {
    hide Codes, InflateStored.Stored, ReadHeader, HeaderBits, TokensBits, Accepted, FixedLit, FixedDist;
    if kind == 0 {
      var pad, data := StoredWasRead(bs, out, max);
      b := StoredBlock(pad, data);
    } else if kind == 1 {
      var toks := DecodedIsEncoding(FixedLit(), FixedDist(), bs, out, max);
      b := FixedBlock(toks);
    } else {
      var r := ReadHeader(bs);
      var h := HeaderWasRead(bs);
      var toks := DecodedIsEncoding(r.ll, r.dl, r.rest, out, max);
      b := DynamicBlock(h, toks);
    }
  }

  lemma BlockHeadWasRead(bs: seq<bit>)
    requires 3 <= |bs|
    ensures ValueLsb(Take(Drop(bs, 1), 2)) < 4 && ValueLsb(Take(bs, 1)) < 2
    ensures bs == [ValueLsb(Take(bs, 1))] + (LowBits(ValueLsb(Take(Drop(bs, 1), 2)), 2) + Drop(bs, 3))
  {
    hide Take;
    assert Pow2(1) == 2 && Pow2(2) == 4;
    LowWasRead(bs, 1);
    LowWasRead(Drop(bs, 1), 2);
    ReadOn(0, bs, 1, 2);
    var last := ValueLsb(Take(bs, 1));
    assert LowBits(last, 1) == [last];
  }

  /** If decoding succeeds, the bits read encode some stream and the output is its expansion. */
  lemma {:induction false} InflatedIsStream(bs: seq<bit>, out: seq<byte>, max: nat) returns (blocks: seq<Block>)
    requires var r := InflateAll(bs, out, max); r.Known? && r.o.Done?
    ensures blocks != [] && BlocksOk(blocks) && StreamExpandable(out, blocks)
    ensures var o := InflateAll(bs, out, max).o;
            && StreamFits(blocks, o.rest)
            && bs == StreamBits(blocks, o.rest) && o.out == ExpandStream(out, blocks)
    decreases |bs|
  {
    hide BlockOf, BlockBits, BlockExpandable, ExpandBlock, Fits, BlockOk, Take, Drop, ValueLsb;
    var kind := ValueLsb(Take(Drop(bs, 1), 2));
    BlockHeadWasRead(bs);
    BlockShrinks(kind, Drop(bs, 3), out, max);
    var b := BlockWasRead(kind, Drop(bs, 3), out, max);
    if ValueLsb(Take(bs, 1)) == 1 {
      blocks := [b];
      assert blocks[1..] == [];
    } else {
      var o := BlockOf(kind, Drop(bs, 3), out, max).o;
      var more := InflatedIsStream(o.rest, o.out, max);
      blocks := [b] + more;
      assert blocks[1..] == more;
    }
  }

  /* ---- The decoder in place ---- */

  /** No stream is shorter than ten bits. */
  lemma StreamIsLong(bs: seq<bit>, out: seq<byte>, max: nat)
    requires var r := InflateAll(bs, out, max); r.Known? && r.o.Done?
    ensures |bs| >= 10
  {
    hide InflateAll, BlockBits, Fits, BlockOk;
    var blocks := InflatedIsStream(bs, out, max);
    var rest := InflateAll(bs, out, max).o.rest;
    BlockIsLong(blocks[0], StreamBits(blocks[1..], rest));
  }

  lemma BlockIsLong(b: Block, rest: seq<bit>)
    requires BlockOk(b)
    ensures |BlockBits(b, rest)| >= 7
  {
    hide CodeWord, ItemsBits, ClBits, TokensBits;
    match b
    case StoredBlock(pad, data) =>
    case FixedBlock(toks) =>
      FixedEndCoded();
      assert FixedLit()[256] == 7;
      TokensAreLong(FixedLit(), FixedDist(), toks, rest);
    case DynamicBlock(h, toks) =>
  }

  lemma {:induction false} TokensAreLong(ll: seq<int>, dl: seq<int>, toks: seq<Token>, rest: seq<bit>)
    requires TokensOk(ll, dl, toks) && Coded(ll, 256)
    ensures |TokensBits(ll, dl, toks, rest)| >= ll[256]
    decreases |toks|
  {
    hide CodeWord, TokenBits;
    if toks != [] {
      TokensAreLong(ll, dl, toks[1..], rest);
    }
  }

  method FillRange(a: array<int>, from: nat, to: nat, v: int)
    requires from <= to <= a.Length
    modifies a
    ensures a[..] == old(a[..from]) + Run(to - from, v) + old(a[to..])
  {
    for sym := from to to
      invariant a[..] == old(a[..from]) + Run(sym - from, v) + old(a[sym..])
    {
      a[sym] := v;
    }
  }

  /** The fixed tables are built afresh for every fixed block. */
  method FixedTables(lc: Huffman, dc: Huffman)
    requires lc.Shape() && dc.Shape()
    requires lc.count != dc.count && lc.symbol != dc.symbol
    modifies lc.count, lc.symbol, dc.count, dc.symbol
    ensures lc.TableOf(FixedLit()) && dc.TableOf(FixedDist())
  {
    var lengths := new int[MAXCODES](_ => 0);
    FillRange(lengths, 0, 144, 8);
    FillRange(lengths, 144, 256, 9);
    FillRange(lengths, 256, 280, 7);
    FillRange(lengths, 280, 288, 8);
    assert lengths[..MAXLCODES] == FixedLit();
    var r := Construct(lc, lengths[..MAXLCODES]);
    FillRange(lengths, 0, 30, 5);
    assert lengths[..30] == FixedDist();
    r := Construct(dc, lengths[..30]);
  }

  method InflateFixed(s: Inf)
    requires s.Valid() && s.err == 0
    modifies s`inPos, s`bitBuf, s`bitCnt, s`err, s`outPos, s.out
    ensures s.Valid() && old(s.Written()) <= s.Written()
    ensures s.err == 0 ==> |s.Pending()| <= |old(s.Pending())|
    ensures match Codes(FixedLit(), FixedDist(), old(s.Pending()), old(s.Written()), s.outMax)
            case Done(o, r) => s.err == 0 && s.Written() == o && s.Pending() == r
            case Fail(e) => s.err == e
  {
    hide Inf.Pending, Huffman.TableOf, Accepted, FixedLit, FixedDist, Codes;
    var lc := new Huffman();
    var dc := new Huffman();
    FixedTables(lc, dc);
    FixedAccepted();
    InflateBlock(s, lc, dc, FixedLit(), FixedDist());
  }

  /** The numbers of codes that open a dynamic block. */
  method ReadCounts(s: Inf) returns (nlen: nat, ndist: nat, ncode: nat)
    requires s.Valid()
    modifies s`inPos, s`bitBuf, s`bitCnt, s`err
    ensures s.Valid() && s.Written() == old(s.Written())
    ensures var bs := old(s.Pending());
            && nlen == ValueLsb(Take(bs, 5)) + 257 && ndist == ValueLsb(Take(Drop(bs, 5), 5)) + 1
            && ncode == ValueLsb(Take(Drop(bs, 10), 4)) + 4
            && s.Pending() == Drop(bs, 14) && s.err == ErrAfter(old(s.err), bs, 14)
            && nlen <= 288 && ndist <= 32 && ncode <= 19
  {
    hide Inf.Pending, Inf.Valid, Take, Drop, ValueLsb, ErrAfter;
    ghost var bs := s.Pending();
    FieldRanges(bs);
    nlen := s.Bits(5);
    ReadOn(old(s.err), bs, 5, 5);
    ndist := s.Bits(5);
    ReadOn(old(s.err), bs, 10, 4);
    ncode := s.Bits(4);
    nlen, ndist, ncode := nlen + 257, ndist + 1, ncode + 4;
  }

  /** Decodes the code lengths of a dynamic block and builds its two tables. */
  method TablesFromCodeLengths(s: Inf, lc: Huffman, dc: Huffman, cl: seq<int>, nlen: nat, ndist: nat)
    returns (ghost ll: seq<int>, ghost dl: seq<int>)
    requires s.Valid() && lc.Shape() && dc.Shape() && |cl| == 19 && nlen + ndist <= MAXCODES
    requires lc.count != dc.count && lc.symbol != dc.symbol
    modifies s`inPos, s`bitBuf, s`bitCnt, s`err, lc.count, lc.symbol, dc.count, dc.symbol
    ensures s.Valid() && |s.Pending()| <= |old(s.Pending())|
    ensures lc.TableOf(ll) && dc.TableOf(dl)
    ensures old(s.err) != 0 ==> s.err == old(s.err)
    ensures old(s.err) == 0 && Accepted(cl) ==>
              match ReadLengths(cl, nlen + ndist, old(s.Pending()), [])
              case LenOk(lengths, rest) =>
                s.err == 0 && s.Pending() == rest && ll == lengths[..nlen] && dl == lengths[nlen..]
              case LenFail(code) => s.err == code
  {
    hide Inf.Pending, Inf.Valid, Huffman.TableOf, Accepted, ReadLengths, Left;
    var h := new Huffman();
    var r := Construct(h, cl);
    var all := new int[MAXCODES];
    ReadAllLengths(s, h, nlen + ndist, all, cl);
    ll, dl := all[..nlen], all[nlen..nlen + ndist];
    r := Construct(lc, all[..nlen]);
    r := Construct(dc, all[nlen..nlen + ndist]);
    SliceSplit(all[..], nlen, nlen + ndist);
    assert all[..][..nlen + ndist] == all[..nlen + ndist] && all[..][nlen..nlen + ndist] == dl;
  }

  lemma SliceSplit(a: seq<int>, n: nat, m: nat)
    requires n <= m <= |a|
    ensures a[..m][..n] == a[..n] && a[..m][n..] == a[n..m]
  {
  }

  /** Reads the header of a dynamic block. Where the C code would go past its 318 lengths the
      model stops with an error of its own. */
  method DynamicTables(s: Inf, lc: Huffman, dc: Huffman) returns (ghost ll: seq<int>, ghost dl: seq<int>)
    requires s.Valid() && s.err == 0 && lc.Shape() && dc.Shape()
    requires lc.count != dc.count && lc.symbol != dc.symbol
    modifies s`inPos, s`bitBuf, s`bitCnt, s`err, lc.count, lc.symbol, dc.count, dc.symbol
    ensures s.Valid() && |s.Pending()| <= |old(s.Pending())|
    ensures s.err == 0 ==> lc.TableOf(ll) && dc.TableOf(dl)
    ensures match ReadHeader(old(s.Pending()))
            case Tables(ll', dl', rest) => s.err == 0 && s.Pending() == rest && ll == ll' && dl == dl'
            case BadHeader(code) => s.err == code
            case Undefined => true
  {
    hide Inf.Pending, Inf.Valid, Huffman.TableOf, Accepted, Take, Drop, ValueLsb, ReadClLengths, ReadLengths;
    ll, dl := [], [];
    ghost var bs := s.Pending();
    var nlen, ndist, ncode := ReadCounts(s);
    if nlen + ndist > MAXCODES {
      s.SetErr(ERR_UNDEFINED);
      return;
    }
    var cl := ReadCodeLengths(s, ncode);
    ll, dl := TablesFromCodeLengths(s, lc, dc, cl, nlen, ndist);
  }

  method InflateDynamic(s: Inf)
    requires s.Valid() && s.err == 0
    modifies s`inPos, s`bitBuf, s`bitCnt, s`err, s`outPos, s.out
    ensures s.Valid() && old(s.Written()) <= s.Written()
    ensures s.err == 0 ==> |s.Pending()| <= |old(s.Pending())|
    ensures match Dynamic(old(s.Pending()), old(s.Written()), s.outMax)
            case Known(Done(o, r)) => s.err == 0 && s.Written() == o && s.Pending() == r
            case Known(Fail(e)) => s.err == e
            case Unspecified => true
  {
    hide Inf.Pending, Huffman.TableOf, Accepted, Codes, ReadHeader;
    var lc := new Huffman();
    var dc := new Huffman();
    var ll, dl := DynamicTables(s, lc, dc);
    if s.err != 0 {
      return;
    }
    InflateBlock(s, lc, dc, ll, dl);
  }

  /** One block after its header bits. */
  method InflateOne(s: Inf, kind: nat)
    requires s.Valid() && s.err == 0
    modifies s`inPos, s`bitBuf, s`bitCnt, s`err, s`outPos, s.out
    ensures s.Valid() && old(s.Written()) <= s.Written()
    ensures s.err == 0 ==> |s.Pending()| <= |old(s.Pending())|
    ensures match BlockOf(kind, old(s.Pending()), old(s.Written()), s.outMax)
            case Known(Done(o, r)) => s.err == 0 && s.Written() == o && s.Pending() == r
            case Known(Fail(e)) => s.err == e
            case Unspecified => true
  {
    hide Inf.Pending, Inf.Valid, Codes, InflateStored.Stored, Dynamic, FixedLit, FixedDist;
    if kind == 0 {
      InflateStored.InflateStored(s);
    } else if kind == 1 {
      InflateFixed(s);
    } else if kind == 2 {
      InflateDynamic(s);
    } else {
      s.SetErr(ERR_BADBLOCK);
    }
  }

  /** Reads the three header bits; err is set when they are not there. */
  method ReadBlockHead(s: Inf) returns (last: nat, kind: nat)
    requires s.Valid()
    modifies s`inPos, s`bitBuf, s`bitCnt, s`err
    ensures s.Valid() && s.Written() == old(s.Written())
    ensures var bs := old(s.Pending());
            && last == ValueLsb(Take(bs, 1)) && kind == ValueLsb(Take(Drop(bs, 1), 2))
            && s.Pending() == Drop(bs, 3) && s.err == ErrAfter(old(s.err), bs, 3)
  {
    hide Inf.Pending, Inf.Valid, Take, Drop, ValueLsb, ErrAfter;
    ReadOn(s.err, s.Pending(), 1, 2);
    last := s.Bits(1);
    kind := s.Bits(2);
  }

  /** Decompresses a raw deflate stream. It always terminates; a stream without an oversubscribed
      or overlong dynamic header gives exactly the outcome of InflateAll. */
  method DeflateDecompress(input: seq<byte>, out: array<byte>, outMax: nat) returns (rc: int, outLen: nat)
    requires outMax <= out.Length && outMax < 0x8000_0000
    modifies out
    ensures rc == 0 ==> outLen <= outMax
    ensures match InflateAll(BytesToBits(input), [], outMax)
            case Known(Done(o, _)) => rc == 0 && outLen == |o| && out[..outLen] == o
            case Known(Fail(e)) => rc == e != 0
            case Unspecified => true
  {
    hide Inf.Pending, BlockOf, Take, Drop, ValueLsb, Pow2;
    var s := new Inf(input, out, outMax);
    ghost var result := InflateAll(BytesToBits(input), [], outMax);
    outLen := 0;
    var last: nat := 0;
    while last == 0
      invariant s.Valid() && s.err == 0 && s.out == out && s.outMax == outMax && fresh(s)
      invariant last <= 1
      invariant last == 1 ==> match result
                              case Known(Done(o, _)) => s.Written() == o
                              case Known(Fail(_)) => false
                              case Unspecified => true
      invariant last == 0 && result.Known? ==> result == InflateAll(s.Pending(), s.Written(), outMax)
      decreases if last == 1 then 0 else |s.Pending()| + 1
    {
      ghost var bs := s.Pending();
      var kind;
      last, kind := ReadBlockHead(s);
      if s.err != 0 {
        return s.err, 0;
      }
      BlockHeadWasRead(bs);
      BlockShrinks(kind, s.Pending(), s.Written(), outMax);
      InflateOne(s, kind);
      if s.err != 0 {
        return s.err, 0;
      }
    }
    rc := 0;
    outLen := s.outPos;
  }
}
