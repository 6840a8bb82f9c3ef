/** LZSS: flag bytes, literals and back-references over a 4096-byte window. */
module Lzss {
  import opened Bits
  import opened Lz

  const WIN_SIZE := 4096
  const MIN_MATCH := 3
  const MAX_MATCH := 18

  /** A literal, or len bytes copied from off bytes back. */
  datatype Token = Lit(b: byte) | Ref(off: nat, len: nat)

  ghost predicate TokenOk(t: Token) {
    t.Ref? ==> 1 <= t.off <= WIN_SIZE && MIN_MATCH <= t.len <= MAX_MATCH
  }

  function TokenSize(t: Token): nat {
    if t.Lit? then 1 else 2
  }

  function Covers(t: Token): nat {
    if t.Lit? then 1 else t.len
  }

  function TokenBytes(t: Token): (r: seq<byte>)
    requires TokenOk(t)
    ensures |r| == TokenSize(t)
  {
    match t
    case Lit(b) => [b]
    case Ref(off, len) => [(off - 1) / 16, ((off - 1) % 16) * 16 + (len - MIN_MATCH)]
  }

  ghost predicate TokensOk(toks: seq<Token>) {
    forall k | 0 <= k < |toks| :: TokenOk(toks[k])
  }

  /** The bytes of the tokens of one group, without its flag byte. */
  function GroupBody(g: seq<Token>): seq<byte>
    requires TokensOk(g)
  {
    if g == [] then [] else TokenBytes(g[0]) + GroupBody(g[1..])
  }

  /** Flag bits, least significant first: bit 7 - k is set when token k is a literal. */
  function FlagBits(g: seq<Token>): (r: seq<bit>)
    ensures |r| == 8
  {
    seq(8, j requires 0 <= j < 8 => if 7 - j < |g| && g[7 - j].Lit? then 1 else 0)
  }

  function FlagByte(g: seq<Token>): (b: byte)
    ensures forall j | 0 <= j < 8 :: BitOf(b, j) == FlagBits(g)[j]
  {
    BitsOfValue(FlagBits(g));
    ValueLsb(FlagBits(g))
  }

  /** Groups of eight tokens, the last one possibly shorter, each after its flag byte. */
  function Pack(toks: seq<Token>): seq<byte>
    requires TokensOk(toks)
    decreases |toks|
  {
    if toks == [] then []
    else if |toks| <= 8 then [FlagByte(toks)] + GroupBody(toks)
    else [FlagByte(toks[..8])] + GroupBody(toks[..8]) + Pack(toks[8..])
  }

  /* ---- Meaning ---- */

  ghost predicate Expandable(out: seq<byte>, toks: seq<Token>)
    decreases |toks|
  {
    toks != [] ==>
      (toks[0].Ref? ==> 1 <= toks[0].off <= |out|) && Expandable(Apply(out, toks[0]), toks[1..])
  }

  ghost function Apply(out: seq<byte>, t: Token): (r: seq<byte>)
    requires t.Ref? ==> 1 <= t.off <= |out|
    ensures |r| == |out| + Covers(t)
  {
    match t
    case Lit(b) => out + [b]
    case Ref(off, len) => CopyBack(out, off, len)
  }

  ghost function Expand(out: seq<byte>, toks: seq<Token>): (r: seq<byte>)
    requires Expandable(out, toks)
    ensures |r| >= |out|
    decreases |toks|
  {
    if toks == [] then out else Expand(Apply(out, toks[0]), toks[1..])
  }

  /* ---- The decompressor on any input ---- */

  datatype Option<T> = None | Some(value: T)

  /** What is written for z, after out; None for a malformed input or a full buffer. */
  ghost function Unpack(z: seq<byte>, out: seq<byte>, cap: nat): Option<seq<byte>>
    decreases |z|, 0
  {
    if z == [] then Some(out) else UnpackGroup(z[1..], z[0], 8, out, cap)
  }

  ghost function UnpackGroup(z: seq<byte>, flags: byte, left: nat, out: seq<byte>, cap: nat): Option<seq<byte>>
    requires left <= 8
    decreases |z|, 1 + left
  {
    if left == 0 || z == [] then Unpack(z, out, cap)
    else if BitOf(flags, left - 1) == 1 then
      if |out| >= cap then None else UnpackGroup(z[1..], flags, left - 1, out + [z[0]], cap)
    else if |z| < 2 then None
    else
      var off, len := RefOff(z[0], z[1]), RefLen(z[1]);
      if |out| < off || |out| + len > cap then None
      else UnpackGroup(z[2..], flags, left - 1, CopyBack(out, off, len), cap)
  }

  function RefOff(b0: byte, b1: byte): (off: nat)
    ensures 1 <= off <= WIN_SIZE
  {
    16 * (b0 as int) + (b1 as int) / 16 + 1
  }

  function RefLen(b1: byte): (len: nat)
    ensures MIN_MATCH <= len <= MAX_MATCH
  {
    (b1 as int) % 16 + MIN_MATCH
  }

  lemma RefFields(off: nat, len: nat)
    requires TokenOk(Ref(off, len))
    ensures var s := TokenBytes(Ref(off, len)); RefOff(s[0], s[1]) == off && RefLen(s[1]) == len
  {
  }

  /** The two bytes of a reference, the first one on top, are the offset less one in 12 bits and the length less
      three in 4 bits; every pair of bytes is a reference. */
  lemma RefCode(off: nat, len: nat, b0: byte, b1: byte)
    requires TokenOk(Ref(off, len))
    ensures var s := TokenBytes(Ref(off, len)); 256 * (s[0] as int) + s[1] as int == 16 * (off - 1) + (len - 3)
    ensures TokenOk(Ref(RefOff(b0, b1), RefLen(b1))) && TokenBytes(Ref(RefOff(b0, b1), RefLen(b1))) == [b0, b1]
  {
  }

  /** Unpacking the tokens of a group from the k-th on. */
  lemma {:induction false} UnpacksGroup(g: seq<Token>, k: nat, rest: seq<byte>, out: seq<byte>, cap: nat)
    requires k <= |g| <= 8 && TokensOk(g) && (|g| == 8 || rest == [])
    requires Expandable(out, g[k..]) && |Expand(out, g[k..])| <= cap
    ensures UnpackGroup(GroupBody(g[k..]) + rest, FlagByte(g), 8 - k, out, cap) ==
            Unpack(rest, Expand(out, g[k..]), cap)
    decreases |g| - k
  {
    hide FlagByte, CopyBack, TokenBytes, RefOff, RefLen;
    if k < |g| {
      var t := g[k];
      assert g[k..][1..] == g[k + 1..];
      var tail := GroupBody(g[k + 1..]) + rest;
      var z := GroupBody(g[k..]) + rest;
      GroupHead(g[k..], rest);
      assert BitOf(FlagByte(g), 7 - k) == FlagBits(g)[7 - k];
      UnpacksGroup(g, k + 1, rest, Apply(out, t), cap);
      if t.Ref? {
        RefFields(t.off, t.len);
      }
      UnpacksToken(t, tail, FlagByte(g), 8 - k, out, cap);
    } else {
      assert GroupBody(g[k..]) + rest == rest;
    }
  }

  lemma GroupHead(g: seq<Token>, rest: seq<byte>)
    requires g != [] && TokensOk(g)
    ensures GroupBody(g) + rest == TokenBytes(g[0]) + (GroupBody(g[1..]) + rest)
  {
    hide TokenBytes;
  }

  lemma UnpacksToken(t: Token, tail: seq<byte>, flags: byte, left: nat, out: seq<byte>, cap: nat)
    requires TokenOk(t) && 1 <= left <= 8 && BitOf(flags, left - 1) == (if t.Lit? then 1 else 0)
    requires (t.Ref? ==> t.off <= |out|) && |Apply(out, t)| <= cap
    ensures UnpackGroup(TokenBytes(t) + tail, flags, left, out, cap) ==
            UnpackGroup(tail, flags, left - 1, Apply(out, t), cap)
  {
    hide BitOf, CopyBack, RefOff, RefLen;
    var z := TokenBytes(t) + tail;
    if t.Lit? {
      assert z[1..] == tail;
    } else {
      RefFields(t.off, t.len);
      assert z[2..] == tail;
    }
  }

  lemma {:induction false} ExpandSplit(out: seq<byte>, a: seq<Token>, b: seq<Token>)
    requires Expandable(out, a + b)
    ensures Expandable(out, a) && Expandable(Expand(out, a), b) && Expand(out, a + b) == Expand(Expand(out, a), b)
    decreases |a|
  {
    hide Apply;
    if a == [] {
      assert a + b == b;
    } else {
      assert (a + b)[1..] == a[1..] + b;
      ExpandSplit(Apply(out, a[0]), a[1..], b);
    }
  }

  /** Unpacking a packed token list applies the tokens, whatever their number. */
  lemma {:induction false} UnpackInvertsPack(toks: seq<Token>, out: seq<byte>, cap: nat)
    requires TokensOk(toks) && Expandable(out, toks) && |Expand(out, toks)| <= cap
    ensures Unpack(Pack(toks), out, cap) == Some(Expand(out, toks))
    decreases |toks|
  {
    hide FlagByte, GroupBody, UnpackGroup;
    if toks != [] {
      var g := if |toks| <= 8 then toks else toks[..8];
      var more := if |toks| <= 8 then [] else toks[8..];
      assert toks == g + more && g[0..] == g;
      ExpandSplit(out, g, more);
      UnpackInvertsPack(more, Expand(out, g), cap);
      UnpacksGroup(g, 0, Pack(more), out, cap);
      assert Pack(toks)[1..] == GroupBody(g) + Pack(more);
    }
  }

  lemma ExampleFlags(toks: seq<Token>)
    requires toks == [Lit(0x61), Ref(1, 3)]
    ensures FlagByte(toks) == 0x80
  {
    var b := FlagByte(toks);
    hide FlagByte;
    assert Pow2(7) == 0x80 && Pow2(6) == 0x40 && Pow2(5) == 0x20 && Pow2(4) == 0x10;
    assert Pow2(3) == 8 && Pow2(2) == 4 && Pow2(1) == 2 && Pow2(0) == 1;
    hide Pow2;
    assert BitOf(b, 7) == 1 && BitOf(b, 6) == 0 && BitOf(b, 5) == 0 && BitOf(b, 4) == 0;
    assert BitOf(b, 3) == 0 && BitOf(b, 2) == 0 && BitOf(b, 1) == 0 && BitOf(b, 0) == 0;
  }

  /** A flag byte, a literal and a reference to three bytes at offset one. */
  lemma Example(cap: nat)
    requires cap >= 4
    ensures Unpack([0x80, 0x61, 0x00, 0x00], [], cap) == Some([0x61, 0x61, 0x61, 0x61])
  {
    hide Unpack, FlagByte;
    var toks, one := [Lit(0x61), Ref(1, 3)], [0x61];
    ExampleFlags(toks);
    assert toks[1..] == [Ref(1, 3)] && toks[1..][1..] == [];
    assert GroupBody(toks) == [0x61] + ([0x00, 0x00] + []);
    assert Pack(toks) == [0x80, 0x61, 0x00, 0x00];
    CopyBackIs(one, 1, 3);
    hide CopyBack;
    var r := CopyBack(one, 1, 3);
    assert r[0] == r[..1][0] && r[1] == r[0] && r[2] == r[1] && r[3] == r[2];
    assert r == [0x61, 0x61, 0x61, 0x61];
    assert Apply([], Lit(0x61)) == one;
    assert Expandable(r, []) && Expand(r, []) == r;
    assert Expandable(one, toks[1..]) && Expand(one, toks[1..]) == r;
    UnpackInvertsPack(toks, [], cap);
  }

  /* ---- Greedy choice ---- */

  /** The l bytes at j equal the l bytes at ip; j's run may pass ip. */
  predicate Agree(src: seq<byte>, j: nat, ip: nat, l: nat)
    requires j <= ip && ip + l <= |src|
  {
    src[j..j + l] == src[ip..ip + l]
  }

  lemma AgreeMore(src: seq<byte>, j: nat, ip: nat, l: nat)
    requires j <= ip && ip + l < |src| && Agree(src, j, ip, l)
    ensures Agree(src, j, ip, l + 1) <==> src[j + l] == src[ip + l]
  {
    assert src[j..j + l + 1] == src[j..j + l] + [src[j + l]];
    assert src[ip..ip + l + 1] == src[ip..ip + l] + [src[ip + l]];
    assert src[j..j + l + 1][l] == src[j + l] && src[ip..ip + l + 1][l] == src[ip + l];
  }

  /** Length of the match at j, at most 18, when l bytes are known to agree. */
  function MatchFrom(src: seq<byte>, j: nat, ip: nat, l: nat): (r: nat)
    requires j < ip && ip + l <= |src| && l <= MAX_MATCH && Agree(src, j, ip, l)
    ensures l <= r <= MAX_MATCH && ip + r <= |src| && Agree(src, j, ip, r)
    ensures r == MAX_MATCH || ip + r == |src| || !Agree(src, j, ip, r + 1)
    decreases MAX_MATCH - l
  {
    if l < MAX_MATCH && ip + l < |src| then
      AgreeMore(src, j, ip, l);
      if src[j + l] == src[ip + l] then MatchFrom(src, j, ip, l + 1) else l
    else l
  }

  function MatchLen(src: seq<byte>, j: nat, ip: nat): (r: nat)
    requires j < ip <= |src|
    ensures r <= MAX_MATCH && ip + r <= |src| && Agree(src, j, ip, r)
  {
    MatchFrom(src, j, ip, 0)
  }

  function WindowStart(ip: nat): nat {
    if ip < WIN_SIZE then 0 else ip - WIN_SIZE
  }

  /** Longest match among the starts from lo to hi - 1, at least 2; the first start wins ties. */
  ghost predicate IsBest(src: seq<byte>, ip: nat, lo: nat, hi: nat, len: nat, off: nat)
    requires lo <= hi <= ip <= |src|
  {
    && (forall j | lo <= j < hi :: MatchLen(src, j, ip) <= len)
    && (if len == MIN_MATCH - 1 then off == 0
        else
          && MIN_MATCH <= len <= MAX_MATCH && lo <= ip - off < hi && off >= 1
          && MatchLen(src, ip - off, ip) == len
          && forall j | lo <= j < ip - off :: MatchLen(src, j, ip) < len)
  }

  /** t is the longest match in the window, or a literal when none has three bytes. */
  ghost predicate Greedy(src: seq<byte>, ip: nat, t: Token)
    requires ip < |src|
  {
    if t.Lit? then t.b == src[ip] && IsBest(src, ip, WindowStart(ip), ip, MIN_MATCH - 1, 0)
    else t.len >= MIN_MATCH && IsBest(src, ip, WindowStart(ip), ip, t.len, t.off)
  }

  /** The tokens cover src from ip to its end, each chosen greedily. */
  ghost predicate GreedyFrom(src: seq<byte>, ip: nat, toks: seq<Token>)
    requires ip <= |src|
    decreases |toks|
  {
    if toks == [] then ip == |src|
    else
      && ip < |src| && Greedy(src, ip, toks[0]) && ip + Covers(toks[0]) <= |src|
      && GreedyFrom(src, ip + Covers(toks[0]), toks[1..])
  }

  lemma BestUnique(src: seq<byte>, ip: nat, lo: nat, hi: nat, len: nat, off: nat, len': nat, off': nat)
    requires lo <= hi <= ip <= |src| && IsBest(src, ip, lo, hi, len, off) && IsBest(src, ip, lo, hi, len', off')
    ensures len == len' && off == off'
  {
  }

  /** The greedy tokens are determined by the input. */
  lemma {:induction false} GreedyUnique(src: seq<byte>, ip: nat, a: seq<Token>, b: seq<Token>)
    requires ip <= |src| && GreedyFrom(src, ip, a) && GreedyFrom(src, ip, b)
    ensures a == b
    decreases |a|
  {
    hide IsBest;
    if a != [] {
      var la, oa := if a[0].Lit? then 2 else a[0].len, if a[0].Lit? then 0 else a[0].off;
      var lb, ob := if b[0].Lit? then 2 else b[0].len, if b[0].Lit? then 0 else b[0].off;
      BestUnique(src, ip, WindowStart(ip), ip, la, oa, lb, ob);
      GreedyUnique(src, ip + Covers(a[0]), a[1..], b[1..]);
    }
  }

  lemma {:induction false} CopiesMatch(src: seq<byte>, ip: nat, off: nat, len: nat, k: nat)
    requires 1 <= off <= ip && k <= len && ip + len <= |src| && Agree(src, ip - off, ip, len)
    ensures CopyBack(src[..ip + k], off, len - k) == src[..ip + len]
    decreases len - k
  {
    if k < len {
      var out := src[..ip + k];
      assert src[ip - off..ip - off + len][k] == src[ip..ip + len][k];
      assert out[|out| - off] == src[ip + k];
      assert out + [src[ip + k]] == src[..ip + k + 1];
      CopiesMatch(src, ip, off, len, k + 1);
    }
  }

  /** A greedy token extends the part of src already covered. */
  lemma GreedyApplies(src: seq<byte>, ip: nat, t: Token)
    requires ip < |src| && Greedy(src, ip, t)
    ensures TokenOk(t) && (t.Ref? ==> 1 <= t.off <= ip) && ip + Covers(t) <= |src|
    ensures Apply(src[..ip], t) == src[..ip + Covers(t)]
  {
    hide MatchLen, CopyBack, Agree;
    if t.Lit? {
      assert src[..ip] + [t.b] == src[..ip + 1];
    } else {
      assert MatchLen(src, ip - t.off, ip) == t.len;
      CopiesMatch(src, ip, t.off, t.len, 0);
    }
  }

  /** Greedy tokens expand to the input. */
  lemma {:induction false} GreedyExpands(src: seq<byte>, ip: nat, toks: seq<Token>)
    requires ip <= |src| && GreedyFrom(src, ip, toks)
    ensures TokensOk(toks) && Expandable(src[..ip], toks) && Expand(src[..ip], toks) == src
    decreases |toks|
  {
    hide Greedy, Apply, TokenOk;
    if toks == [] {
      assert src[..ip] == src;
    } else {
      GreedyApplies(src, ip, toks[0]);
      GreedyExpands(src, ip + Covers(toks[0]), toks[1..]);
    }
  }

  /* ---- Sizes ---- */

  function BodySize(toks: seq<Token>): nat {
    if toks == [] then 0 else BodySize(toks[..|toks| - 1]) + TokenSize(toks[|toks| - 1])
  }

  /** Number of groups of eight. */
  function Groups(n: nat): nat {
    (n + 7) / 8
  }

  lemma {:induction false} BodySizeAppend(a: seq<Token>, b: seq<Token>)
    ensures BodySize(a + b) == BodySize(a) + BodySize(b)
  {
    if b == [] {
      assert a + b == a;
    } else {
      assert (a + b)[..|a + b| - 1] == a + b[..|b| - 1];
      BodySizeAppend(a, b[..|b| - 1]);
    }
  }

  lemma {:induction false} GroupBodySize(g: seq<Token>)
    requires TokensOk(g)
    ensures |GroupBody(g)| == BodySize(g)
  {
    if g != [] {
      assert g == [g[0]] + g[1..];
      GroupBodySize(g[1..]);
      BodySizeAppend([g[0]], g[1..]);
      assert [g[0]][..0] == [];
    }
  }

  lemma {:induction false} PackSize(toks: seq<Token>)
    requires TokensOk(toks)
    ensures |Pack(toks)| == Groups(|toks|) + BodySize(toks)
    decreases |toks|
  {
    hide FlagByte, GroupBody;
    if |toks| > 8 {
      GroupBodySize(toks[..8]);
      PackSize(toks[8..]);
      assert toks == toks[..8] + toks[8..];
      BodySizeAppend(toks[..8], toks[8..]);
    } else if toks != [] {
      GroupBodySize(toks);
    }
  }

  lemma GreedyCovers(src: seq<byte>, ip: nat, t: Token)
    requires ip < |src| && Greedy(src, ip, t)
    ensures Covers(t) >= TokenSize(t)
  {
  }

  /** Every token takes no more bytes than it covers. */
  lemma {:induction false} GreedySizes(src: seq<byte>, ip: nat, toks: seq<Token>)
    requires ip <= |src| && GreedyFrom(src, ip, toks)
    ensures |toks| <= |src| - ip && BodySize(toks) <= |src| - ip
    decreases |toks|
  {
    hide Greedy;
    if toks != [] {
      GreedyCovers(src, ip, toks[0]);
      GreedySizes(src, ip + Covers(toks[0]), toks[1..]);
      assert toks == [toks[0]] + toks[1..];
      BodySizeAppend([toks[0]], toks[1..]);
      assert [toks[0]][..0] == [];
    }
  }

  /** The output is at most n + ceil(n / 8) bytes. */
  lemma SizeBound(src: seq<byte>, toks: seq<Token>)
    requires GreedyFrom(src, 0, toks)
    ensures TokensOk(toks) && |Pack(toks)| <= |src| + Groups(|src|)
  {
    GreedyExpands(src, 0, toks);
    GreedySizes(src, 0, toks);
    PackSize(toks);
  }

  /* ---- The compressor in place ---- */

  /** The longest match for ip in its window, the farthest one if several. */
  method FindMatch(src: seq<byte>, ip: nat) returns (bestLen: nat, bestOff: nat)
    requires ip < |src|
    ensures IsBest(src, ip, WindowStart(ip), ip, bestLen, bestOff)
  {
    hide MatchFrom, Agree;
    bestLen, bestOff := MIN_MATCH - 1, 0;
    var winStart := WindowStart(ip);
    var j: nat := winStart;
    while j < ip
      invariant winStart <= j <= ip && IsBest(src, ip, winStart, j, bestLen, bestOff)
    {
      var l := MatchLength(src, j, ip);
      if l > bestLen {
        bestLen, bestOff := l, ip - j;
        if bestLen == MAX_MATCH {
          break;
        }
      }
      j := j + 1;
    }
  }

  lemma EmptyAgrees(src: seq<byte>, j: nat, ip: nat)
    requires j <= ip <= |src|
    ensures Agree(src, j, ip, 0)
  {
  }

  method MatchLength(src: seq<byte>, j: nat, ip: nat) returns (l: nat)
    requires j < ip < |src|
    ensures l == MatchLen(src, j, ip)
  {
    hide Agree;
    l := 0;
    assert Agree(src, j, ip, 0) by { EmptyAgrees(src, j, ip); }
    while l < MAX_MATCH && ip + l < |src| && src[j + l] == src[ip + l]
      invariant l <= MAX_MATCH && ip + l <= |src| && Agree(src, j, ip, l)
      invariant MatchFrom(src, j, ip, l) == MatchLen(src, j, ip)
    {
      AgreeMore(src, j, ip, l);
      l := l + 1;
    }
  }

  lemma {:induction false} GreedyExists(src: seq<byte>, ip: nat) returns (toks: seq<Token>)
    requires ip <= |src|
    ensures GreedyFrom(src, ip, toks)
    decreases |src| - ip
  {
    hide IsBest;
    if ip == |src| {
      toks := [];
    } else {
      var len, off := BestExists(src, ip, WindowStart(ip), ip);
      var t := if len < MIN_MATCH then Lit(src[ip]) else Ref(off, len);
      BestIsGreedy(src, ip, len, off);
      GreedyApplies(src, ip, t);
      GreedyCovers(src, ip, t);
      var more := GreedyExists(src, ip + Covers(t));
      toks := [t] + more;
      assert toks[1..] == more;
    }
  }

  lemma BestIsGreedy(src: seq<byte>, ip: nat, len: nat, off: nat)
    requires ip < |src| && IsBest(src, ip, WindowStart(ip), ip, len, off)
    ensures Greedy(src, ip, if len < MIN_MATCH then Lit(src[ip]) else Ref(off, len))
  {
  }

  lemma {:induction false} BestExists(src: seq<byte>, ip: nat, lo: nat, hi: nat) returns (len: nat, off: nat)
    requires lo <= hi <= ip <= |src|
    ensures IsBest(src, ip, lo, hi, len, off)
    decreases hi
  {
    hide MatchFrom, MatchLen, Agree;
    if lo == hi {
      len, off := MIN_MATCH - 1, 0;
    } else {
      len, off := BestExists(src, ip, lo, hi - 1);
      var l := MatchLen(src, hi - 1, ip);
      if l > len {
        len, off := l, ip - (hi - 1);
      }
    }
  }

  lemma {:induction false} PackAppend(a: seq<Token>, b: seq<Token>)
    requires TokensOk(a) && TokensOk(b) && |a| % 8 == 0
    ensures TokensOk(a + b) && Pack(a + b) == Pack(a) + Pack(b)
    decreases |a|
  {
    hide FlagByte, GroupBody;
    if a == [] {
      assert a + b == b;
    } else {
      assert (a + b)[..8] == a[..8] && (a + b)[8..] == a[8..] + b;
      PackAppend(a[8..], b);
      if |a| == 8 {
        assert a[..8] == a && a[8..] == [];
        if b == [] {
          assert a + b == a;
        }
      }
    }
  }

  /** A packed list is at least as long as its prefixes. */
  lemma PackedPrefix(a: seq<Token>, b: seq<Token>)
    requires TokensOk(a + b)
    ensures |Pack(a + b)| >= Groups(|a|) + BodySize(a)
  {
    PackSize(a + b);
    BodySizeAppend(a, b);
  }

  lemma {:induction false} BodySnoc(g: seq<Token>, t: Token)
    requires TokensOk(g) && TokenOk(t)
    ensures TokensOk(g + [t]) && GroupBody(g + [t]) == GroupBody(g) + TokenBytes(t)
  {
    hide TokenBytes;
    if g == [] {
      assert g + [t] == [t] && [t][1..] == [];
    } else {
      assert (g + [t])[1..] == g[1..] + [t];
      BodySnoc(g[1..], t);
    }
  }

  /** The state inside a group: all tokens are done + g + rest, and rest starts at ip. */
  ghost predicate InGroup(src: seq<byte>, all: seq<Token>, done: seq<Token>, g: seq<Token>, rest: seq<Token>, ip: nat) {
    && all == done + g + rest && |done| % 8 == 0 && |g| <= 8 && TokensOk(all)
    && ip <= |src| && GreedyFrom(src, ip, rest)
  }

  lemma NextToken(src: seq<byte>, all: seq<Token>, done: seq<Token>, g: seq<Token>, rest: seq<Token>, ip: nat, t: Token)
    requires InGroup(src, all, done, g, rest, ip) && ip < |src| && |g| < 8 && Greedy(src, ip, t)
    ensures rest != [] && TokenOk(t) && ip + Covers(t) <= |src|
    ensures InGroup(src, all, done, g + [t], rest[1..], ip + Covers(t))
    ensures TokensOk(g) && TokensOk(g + [t])
    ensures |Pack(all)| >= |done| / 8 + 1 + BodySize(done) + BodySize(g) + TokenSize(t)
  {
    hide GreedyFrom, Greedy, Pack, BodySize, TokenOk;
    GreedyStep(src, ip, rest, t);
    MoveOne(all, done, g, rest, t);
    PrefixSize(all, done, g, t, rest[1..]);
  }

  lemma GreedyStep(src: seq<byte>, ip: nat, rest: seq<Token>, t: Token)
    requires ip < |src| && GreedyFrom(src, ip, rest) && Greedy(src, ip, t)
    ensures rest != [] && rest[0] == t && TokenOk(t) && ip + Covers(t) <= |src|
    ensures GreedyFrom(src, ip + Covers(t), rest[1..])
  {
    hide Greedy, Apply, TokenOk;
    GreedyApplies(src, ip, t);
    TokenForced(src, ip, t, rest[0]);
  }

  lemma PrefixSize(all: seq<Token>, done: seq<Token>, g: seq<Token>, t: Token, rest: seq<Token>)
    requires all == (done + (g + [t])) + rest && TokensOk(all)
    ensures |Pack(all)| >= (|done| + |g| + 8) / 8 + BodySize(done) + BodySize(g) + TokenSize(t)
  {
    hide Pack, BodySize, TokenOk;
    var g' := g + [t];
    var next := done + g';
    PackedPrefix(next, rest);
    BodySizeAppend(done, g');
    BodySizeAppend(g, [t]);
    OneBody(t);
  }

  lemma MoveOne(all: seq<Token>, done: seq<Token>, g: seq<Token>, rest: seq<Token>, t: Token)
    requires all == done + g + rest && rest != [] && rest[0] == t && TokensOk(all)
    ensures all == (done + (g + [t])) + rest[1..] && all == done + (g + [t]) + rest[1..]
    ensures TokensOk(g) && TokensOk(g + [t])
  {
    hide TokenOk;
    assert all == (done + (g + [t])) + rest[1..];
    forall k | 0 <= k < |g| + 1 ensures TokenOk((g + [t])[k]) {
      assert (g + [t])[k] == all[|done| + k];
    }
    forall k | 0 <= k < |g| ensures TokenOk(g[k]) {
      assert g[k] == (g + [t])[k];
    }
  }

  lemma OneBody(t: Token)
    ensures BodySize([t]) == TokenSize(t)
  {
    assert [t][..0] == [];
  }

  lemma TokenForced(src: seq<byte>, ip: nat, t: Token, u: Token)
    requires ip < |src| && Greedy(src, ip, t) && Greedy(src, ip, u)
    ensures t == u
  {
    hide IsBest;
    var la, oa := if t.Lit? then 2 else t.len, if t.Lit? then 0 else t.off;
    var lb, ob := if u.Lit? then 2 else u.len, if u.Lit? then 0 else u.off;
    BestUnique(src, ip, WindowStart(ip), ip, la, oa, lb, ob);
  }

  /** Writes the bytes of one token; false when they do not fit. */
  method PutToken(t: Token, out: array<byte>, cap: nat, op: nat) returns (next: nat, ok: bool)
    requires TokenOk(t) && op <= cap <= out.Length
    modifies out
    ensures ok <==> op + TokenSize(t) <= cap
    ensures ok ==> next == op + TokenSize(t) && out[..next] == old(out[..op]) + TokenBytes(t)
  {
    next := op;
    if t.Ref? {
      var encOff := t.off - 1;
      var encLen := t.len - MIN_MATCH;
      if op + 2 > cap {
        return op, false;
      }
      out[op] := encOff / 16;
      out[op + 1] := (encOff % 16) * 16 + encLen;
      next := op + 2;
    } else {
      if op + 1 > cap {
        return op, false;
      }
      out[op] := t.b;
      next := op + 1;
    }
    ok := true;
  }

  lemma FlagMore(g: seq<Token>, t: Token, flags: byte)
    requires |g| < 8 && forall j | 0 <= j < 8 :: BitOf(flags, j) == FlagBits(g)[j]
    ensures var flags' := if t.Lit? then SetBit(flags, 7 - |g|, 1) else flags;
            forall j | 0 <= j < 8 :: BitOf(flags', j) == FlagBits(g + [t])[j]
  {
    hide BitOf, SetBit;
  }

  lemma NoFlags()
    ensures forall j | 0 <= j < 8 :: BitOf(0, j) == FlagBits([])[j]
    ensures GroupBody([]) == []
  {
  }

  lemma FlagIs(g: seq<Token>, flags: byte)
    requires forall j | 0 <= j < 8 :: BitOf(flags, j) == FlagBits(g)[j]
    ensures flags == FlagByte(g)
  {
    hide BitOf, FlagBits;
    SameBitsSameByte(flags, FlagByte(g));
  }

  lemma CoversSome(src: seq<byte>, ip: nat, t: Token)
    requires ip < |src| && Greedy(src, ip, t)
    ensures Covers(t) >= 1
  {
  }

  lemma SplitTail(a: seq<byte>, b: seq<byte>, c: seq<byte>, k: nat)
    requires c == a + b && k < |a|
    ensures c[..k] == a[..k] && c[k + 1..] == a[k + 1..] + b
  {
  }

  /** The chosen token at ip. */
  method ChooseToken(src: seq<byte>, ip: nat) returns (t: Token)
    requires ip < |src|
    ensures Greedy(src, ip, t)
  {
    var bestLen, bestOff := FindMatch(src, ip);
    BestIsGreedy(src, ip, bestLen, bestOff);
    t := if bestLen >= MIN_MATCH then Ref(bestOff, bestLen) else Lit(src[ip]);
  }

  /** Writes up to eight tokens after the flag byte at flagPos and then that byte. */
  method PutGroup(src: seq<byte>, start: nat, out: array<byte>, cap: nat, flagPos: nat,
                  ghost all: seq<Token>, ghost done: seq<Token>, ghost todo: seq<Token>)
    returns (ip: nat, op: nat, ok: bool, ghost g: seq<Token>, ghost rest: seq<Token>)
    requires start < |src| && flagPos < cap <= out.Length && InGroup(src, all, done, [], todo, start)
    requires flagPos == |done| / 8 + BodySize(done)
    modifies out
    ensures !ok ==> |Pack(all)| > cap
    ensures ok ==> InGroup(src, all, done, g, rest, ip) && g != [] && (|g| == 8 || ip == |src|) && op <= cap
    ensures ok ==> TokensOk(g) && op == flagPos + 1 + BodySize(g) && start < ip
    ensures ok ==> out[..op] == old(out[..flagPos]) + [FlagByte(g)] + GroupBody(g)
  {
    hide Greedy, Pack, GroupBody, TokenBytes, GreedyFrom, FlagBits, FlagByte, BitOf;
    ip, op, g, rest := start, flagPos + 1, [], todo;
    var flags: byte := 0;
    NoFlags();
    ghost var before := out[..flagPos];
    assert out[flagPos + 1..op] == GroupBody([]);
    var bit: int := 7;
    while bit >= 0 && ip < |src|
      invariant -1 <= bit <= 7 && |g| == 7 - bit && start <= ip && (g == [] ==> ip == start) && (g != [] ==> ip > start)
      invariant InGroup(src, all, done, g, rest, ip) && TokensOk(g)
      invariant op == flagPos + 1 + BodySize(g) <= cap
      invariant forall j | 0 <= j < 8 :: BitOf(flags, j) == FlagBits(g)[j]
      invariant out[..flagPos] == before && out[flagPos + 1..op] == GroupBody(g)
    {
      var t := ChooseToken(src, ip);
      NextToken(src, all, done, g, rest, ip, t);
      BodySnoc(g, t);
      FlagMore(g, t, flags);
      BodySizeAppend(g, [t]);
      OneBody(t);
      CoversSome(src, ip, t);
      ghost var sofar := out[..op];
      var fits;
      op, fits := PutToken(t, out, cap, op);
      if !fits {
        ok := false;
        return;
      }
      SplitTail(sofar, TokenBytes(t), out[..op], flagPos);
      if t.Lit? {
        flags := SetBit(flags, bit, 1);
      }
      g, rest, ip := g + [t], rest[1..], ip + Covers(t);
      bit := bit - 1;
    }
    out[flagPos] := flags;
    FlagIs(g, flags);
    assert out[..op] == before + [FlagByte(g)] + GroupBody(g);
    ok := true;
  }

  lemma PackGroup(done: seq<Token>, g: seq<Token>)
    requires TokensOk(done) && TokensOk(g) && |done| % 8 == 0 && g != [] && |g| <= 8
    ensures TokensOk(done + g) && Pack(done + g) == Pack(done) + [FlagByte(g)] + GroupBody(g)
  {
    hide FlagByte, GroupBody;
    PackAppend(done, g);
  }

  /** Size of the packed greedy tokens, or -1 when they do not fit. */
  method Compress(src: seq<byte>, out: array<byte>, cap: nat) returns (r: int, ghost toks: seq<Token>)
    requires cap <= out.Length
    modifies out
    ensures GreedyFrom(src, 0, toks) && TokensOk(toks)
    ensures r == if |Pack(toks)| <= cap then |Pack(toks)| else -1
    ensures r >= 0 ==> out[..r] == Pack(toks)
  {
    hide Greedy, Pack, GroupBody, GreedyFrom, FlagByte;
    toks := GreedyExists(src, 0);
    GreedyExpands(src, 0, toks);
    var op: nat, ip: nat := 0, 0;
    ghost var done, rest := [], toks;
    EmptyPack();
    while ip < |src|
      invariant op <= cap && BetweenGroups(src, toks, done, rest, ip)
      invariant op == |Pack(done)|
      invariant out[..op] == Pack(done)
      decreases |src| - ip
    {
      var flagPos := op;
      OpenGroup(src, toks, done, rest, ip);
      if op + 1 > cap {
        RestPacks(src, toks, done, rest, ip);
        return -1, toks;
      }
      var ok;
      ghost var g;
      ip, op, ok, g, rest := PutGroup(src, ip, out, cap, flagPos, toks, done, rest);
      if !ok {
        return -1, toks;
      }
      CloseGroup(src, toks, done, g, rest, ip);
      done := done + g;
    }
    AllDone(src, toks, done, rest, ip);
    r := op;
  }

  /** Whole groups lie behind, unless the input has ended. */
  ghost predicate BetweenGroups(src: seq<byte>, all: seq<Token>, done: seq<Token>, rest: seq<Token>, ip: nat) {
    && all == done + rest && TokensOk(all) && TokensOk(done) && ip <= |src|
    && GreedyFrom(src, ip, rest) && (ip < |src| ==> |done| % 8 == 0)
  }

  lemma OpenGroup(src: seq<byte>, all: seq<Token>, done: seq<Token>, rest: seq<Token>, ip: nat)
    requires BetweenGroups(src, all, done, rest, ip) && ip < |src|
    ensures InGroup(src, all, done, [], rest, ip) && |Pack(done)| == |done| / 8 + BodySize(done)
  {
    hide GreedyFrom, Pack, TokenOk;
    assert all == done + [] + rest;
    PackSize(done);
  }

  lemma CloseGroup(src: seq<byte>, all: seq<Token>, done: seq<Token>, g: seq<Token>, rest: seq<Token>, ip: nat)
    requires InGroup(src, all, done, g, rest, ip) && TokensOk(g) && g != [] && (|g| == 8 || ip == |src|)
    requires TokensOk(done)
    ensures BetweenGroups(src, all, done + g, rest, ip)
    ensures Pack(done + g) == Pack(done) + [FlagByte(g)] + GroupBody(g)
  {
    hide GreedyFrom, Pack, TokenOk, FlagByte, GroupBody;
    PackGroup(done, g);
  }

  lemma EmptyPack()
    ensures Pack([]) == [] && BodySize([]) == 0
  {
  }

  lemma RestPacks(src: seq<byte>, all: seq<Token>, done: seq<Token>, rest: seq<Token>, ip: nat)
    requires InGroup(src, all, done, [], rest, ip) && ip < |src|
    ensures |Pack(all)| >= |done| / 8 + BodySize(done) + 1
  {
    hide Greedy;
    var next := done + [rest[0]];
    assert all == next + rest[1..];
    PackedPrefix(next, rest[1..]);
    BodySizeAppend(done, [rest[0]]);
    OneBody(rest[0]);
  }

  lemma AllDone(src: seq<byte>, all: seq<Token>, done: seq<Token>, rest: seq<Token>, ip: nat)
    requires BetweenGroups(src, all, done, rest, ip) && ip == |src|
    ensures all == done
  {
  }

  /* ---- The decompressor in place ---- */

  /** What Unpack gives: its length, or -1. */
  method Decompress(z: seq<byte>, out: array<byte>, cap: nat) returns (r: int)
    requires cap <= out.Length
    modifies out
    ensures var u := Unpack(z, [], cap);
            if u.None? then r == -1 else r == |u.value| <= cap && out[..r] == u.value
  {
    hide UnpackGroup;
    var ip: nat, op: nat := 0, 0;
    assert z[0..] == z && out[..0] == [];
    while ip < |z|
      invariant ip <= |z| && op <= cap
      invariant Unpack(z[ip..], out[..op], cap) == Unpack(z, [], cap)
      decreases |z| - ip
    {
      var flags := z[ip];
      assert z[ip..][1..] == z[ip + 1..];
      ip := ip + 1;
      ghost var from := ip;
      var bit := 7;
      while bit >= 0 && ip < |z|
        invariant -1 <= bit <= 7 && from <= ip <= |z| && op <= cap
        invariant UnpackGroup(z[ip..], flags, bit + 1, out[..op], cap) == Unpack(z, [], cap)
      {
        UnpackStep(z, ip, flags, bit + 1, out[..op], cap);
        if BitOf(flags, bit) == 1 {
          if op >= cap {
            return -1;
          }
          PutByte(out, op, z[ip]);
          op, ip := op + 1, ip + 1;
        } else {
          if ip + 1 >= |z| {
            return -1;
          }
          var off, length := RefOff(z[ip], z[ip + 1]), RefLen(z[ip + 1]);
          ip := ip + 2;
          if op < off {
            return -1;
          }
          if op + length > cap {
            return -1;
          }
          CopyRun(out, op, off, length);
          op := op + length;
        }
        bit := bit - 1;
      }
      UnpackEnds(z[ip..], flags, bit + 1, out[..op], cap);
    }
    assert z[ip..] == [];
    r := op;
  }

  lemma UnpackStep(z: seq<byte>, ip: nat, flags: byte, left: nat, out: seq<byte>, cap: nat)
    requires ip < |z| && 1 <= left <= 8
    ensures UnpackGroup(z[ip..], flags, left, out, cap) ==
            if BitOf(flags, left - 1) == 1 then
              if |out| >= cap then None else UnpackGroup(z[ip + 1..], flags, left - 1, out + [z[ip]], cap)
            else if ip + 1 >= |z| then None
            else
              var off, len := RefOff(z[ip], z[ip + 1]), RefLen(z[ip + 1]);
              if |out| < off || |out| + len > cap then None
              else UnpackGroup(z[ip + 2..], flags, left - 1, CopyBack(out, off, len), cap)
  {
    hide CopyBack, BitOf, RefOff, RefLen;
    assert z[ip..][1..] == z[ip + 1..];
    if ip + 1 < |z| {
      assert z[ip..][2..] == z[ip + 2..];
    }
  }

  lemma UnpackEnds(z: seq<byte>, flags: byte, left: nat, out: seq<byte>, cap: nat)
    requires left <= 8 && (left == 0 || z == [])
    ensures UnpackGroup(z, flags, left, out, cap) == Unpack(z, out, cap)
  {
  }

  method PutByte(out: array<byte>, op: nat, b: byte)
    requires op < out.Length
    modifies out
    ensures out[..op + 1] == old(out[..op]) + [b]
  {
    out[op] := b;
  }

  /** Copies byte by byte, so the source may run into what was just written. */
  method CopyRun(out: array<byte>, op: nat, off: nat, length: nat)
    requires 1 <= off <= op && op + length <= out.Length
    modifies out
    ensures out[..op + length] == CopyBack(old(out[..op]), off, length)
  {
    ghost var want := CopyBack(out[..op], off, length);
    var src := op - off;
    var k := 0;
    while k < length
      invariant 0 <= k <= length
      invariant CopyBack(out[..op + k], off, length - k) == want
    {
      ghost var was := out[..op + k];
      PutByte(out, op + k, out[src + k]);
      assert was[|was| - off] == was[src + k];
      k := k + 1;
    }
  }

  /* ---- Round trip ---- */

  /** Compresses and decompresses: every byte comes back, whatever room there is beyond n + ceil(n / 8). */
  method RoundTrip(src: seq<byte>, packed: array<byte>, out: array<byte>, cap: nat) returns (c: int, r: int)
    requires cap <= packed.Length && out != packed && |src| <= out.Length
    modifies packed, out
    ensures cap >= |src| + Groups(|src|) ==> c >= 0
    ensures c <= |src| + Groups(|src|)
    ensures c >= 0 ==> r == |src| && out[..r] == src
  {
    ghost var toks;
    c, toks := Compress(src, packed, cap);
    SizeBound(src, toks);
    r := -1;
    if c >= 0 {
      GreedyUnpacks(src, toks, out.Length);
      r := Decompress(packed[..c], out, out.Length);
    }
  }

  /** Unpacking the packed greedy tokens gives the input back. */
  lemma GreedyUnpacks(src: seq<byte>, toks: seq<Token>, cap: nat)
    requires GreedyFrom(src, 0, toks) && |src| <= cap
    ensures TokensOk(toks) && Unpack(Pack(toks), [], cap) == Some(src)
  {
    GreedyExpands(src, 0, toks);
    assert src[..0] == [];
    UnpackInvertsPack(toks, [], cap);
  }
}
