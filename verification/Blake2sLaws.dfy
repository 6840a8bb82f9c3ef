/** Which calls of the compression function make a digest (section 3.3 of RFC 7693). */
module Blake2sLaws {
  import opened Bits
  import opened BitOps
  import opened Blake2s

  /** Everything but the chained state. */
  datatype Call = Call(block: Block, lo: uint32, hi: uint32, last: bool)

  /** The calls one after the other, each on the state the one before left. */
  function RunCalls(f: Compress, h: Words8, calls: seq<Call>): Words8 {
    if calls == [] then h
    else
      var n := |calls| - 1;
      var c := calls[n];
      f(RunCalls(f, h, calls[..n]), c.block, c.lo, c.hi, c.last)
  }

  /** The calls for a message: 64 bytes each, the last one marked, filled with zeros and made even for an empty
      message; each has the number of message bytes so far as its 64-bit count. */
  ghost predicate CallsFor(msg: seq<byte>, calls: seq<Call>) {
    && |calls| == (if msg == [] then 1 else (|msg| + 63) / 64)
    && forall i | 0 <= i < |calls| ::
         var c := calls[i];
         && (c.last <==> i == |calls| - 1)
         && c.lo as int + 0x1_0000_0000 * c.hi as int ==
            (if c.last then |msg| else 64 * (i + 1)) % 0x1_0000_0000_0000_0000
         && forall j | 0 <= j < 64 :: c.block[j] == if 64 * i + j < |msg| then msg[64 * i + j] else 0
  }

  lemma CountWords(lo: uint32, hi: uint32, n: nat)
    requires lo as int + 0x1_0000_0000 * hi as int == n % 0x1_0000_0000_0000_0000
    ensures lo == Low32(n) && hi == High32(n)
  {
    var q := n / 0x1_0000_0000_0000_0000;
    DivUnique(n, 0x1_0000_0000, hi as int + 0x1_0000_0000 * q, lo);
    DivUnique(n / 0x1_0000_0000, 0x1_0000_0000, q, hi);
  }

  lemma CallAt(msg: seq<byte>, calls: seq<Call>, i: nat)
    requires CallsFor(msg, calls) && i < |calls|
    ensures var c := calls[i];
            if i < |calls| - 1 then
              && 64 * (i + 1) <= |msg| && c.block == msg[64 * i..64 * (i + 1)] && !c.last
              && c.lo == Low32(64 * (i + 1)) && c.hi == High32(64 * (i + 1))
            else
              && 64 * i == Behind(|msg|) && c.block == Padded(msg[64 * i..]) && c.last
              && c.lo == Low32(|msg|) && c.hi == High32(|msg|)
  {
    hide Low32, High32;
    var c := calls[i];
    if i < |calls| - 1 {
      CountWords(c.lo, c.hi, 64 * (i + 1));
      assert c.block == msg[64 * i..64 * (i + 1)];
    } else {
      CountWords(c.lo, c.hi, |msg|);
      assert 64 * i == Behind(|msg|);
      assert c.block == Padded(msg[64 * i..]);
    }
  }

  /** The first calls chain the whole blocks. */
  lemma {:induction false} ChainIsRun(f: Compress, outlen: nat, msg: seq<byte>, calls: seq<Call>, n: nat)
    requires outlen <= 32 && CallsFor(msg, calls) && n < |calls|
    ensures 64 * n <= |msg|
    ensures Chain(f, outlen, msg[..64 * n]) == RunCalls(f, Start(outlen), calls[..n])
    decreases n
  {
    hide Start, Low32, High32, CallsFor, Chain, Padded;
    if n == 0 {
      NoBlocks(f, outlen);
      assert msg[..0] == [];
    } else {
      ChainIsRun(f, outlen, msg, calls, n - 1);
      CallAt(msg, calls, n - 1);
      var m := msg[..64 * n];
      assert calls[..n][..n - 1] == calls[..n - 1] && m[..64 * (n - 1)] == msg[..64 * (n - 1)];
      assert m[64 * (n - 1)..] == msg[64 * (n - 1)..64 * n];
      ChainStep(f, outlen, m);
    }
  }

  lemma NoBlocks(f: Compress, outlen: nat)
    requires outlen <= 32
    ensures Chain(f, outlen, []) == Start(outlen)
  {
  }

  /** The digest is what these calls leave, starting from the parameter block, as little-endian bytes. */
  lemma DigestIsRun(f: Compress, outlen: nat, msg: seq<byte>, calls: seq<Call>)
    requires outlen <= 32 && CallsFor(msg, calls)
    ensures Digest(f, outlen, msg) == WordsBytes(RunCalls(f, Start(outlen), calls))[..outlen]
  {
    hide Start, Low32, High32, Chain, CallsFor, Padded, WordsBytes;
    var n := |calls| - 1;
    AnyCall(msg, calls);
    ChainIsRun(f, outlen, msg, calls, n);
    CallAt(msg, calls, n);
  }

  lemma AnyCall(msg: seq<byte>, calls: seq<Call>)
    requires CallsFor(msg, calls)
    ensures calls != []
  {
  }

  /* ---- The marked call ---- */

  /** Only the marked call decides the digest when it ignores the state. */
  lemma MarkedCallDecides(f: Compress, outlen: nat, msg: seq<byte>, w: Words8)
    requires outlen <= 32 && forall h, b, lo, hi :: f(h, b, lo, hi, true) == w
    ensures Digest(f, outlen, msg) == WordsBytes(w)[..outlen]
  {
    hide Chain, Low32, High32;
  }

  /** A message of one block needs no other call. */
  lemma OneBlock(f: Compress, g: Compress, outlen: nat, msg: seq<byte>)
    requires outlen <= 32 && |msg| <= 64
    requires forall h, b, lo, hi :: f(h, b, lo, hi, true) == g(h, b, lo, hi, true)
    ensures Digest(f, outlen, msg) == Digest(g, outlen, msg)
  {
    hide Start, Low32, High32;
    assert msg[..0] == [];
  }

  /** Counts its calls, in word 0 the unmarked and in word 1 the marked ones, and keeps the count of the last. */
  function Counting(h: Words8, block: Block, lo: uint32, hi: uint32, last: bool): Words8 {
    if last then h[1 := (h[1] as int + 1) % 0x1_0000_0000][2 := lo][3 := hi]
    else h[0 := (h[0] as int + 1) % 0x1_0000_0000]
  }

  lemma {:induction false} CountedChain(outlen: nat, msg: seq<byte>)
    requires outlen <= 32 && |msg| % 64 == 0
    ensures var c, h := Chain(Counting, outlen, msg), Start(outlen);
            c[0] == (h[0] as int + |msg| / 64) % 0x1_0000_0000 && c[1] == h[1]
  {
    hide Start, Low32, High32, Chain;
    if msg == [] {
      NoBlocks(Counting, outlen);
    } else {
      var n := |msg| - 64;
      CountedChain(outlen, msg[..n]);
      ChainStep(Counting, outlen, msg);
    }
  }

  /** One marked call, with the length of the message as its count, and one unmarked call for every further block. */
  lemma CallsCounted(msg: seq<byte>)
    ensures var d, h, n := Digest(Counting, 32, msg), Start(32), if msg == [] then 0 else (|msg| - 1) / 64;
            && FromLe32(d[0..4]) == (h[0] as int + n) % 0x1_0000_0000
            && FromLe32(d[4..8]) == (h[1] as int + 1) % 0x1_0000_0000
            && FromLe32(d[8..12]) as int + 0x1_0000_0000 * FromLe32(d[12..16]) as int ==
               |msg| % 0x1_0000_0000_0000_0000
  {
    hide Start, Chain, WordsBytes, FromLe32;
    var k := Behind(|msg|);
    CountedChain(32, msg[..k]);
    var c := Chain(Counting, 32, msg[..k]);
    var w := Counting(c, Padded(msg[k..]), Low32(|msg|), High32(|msg|), true);
    var d := WordsBytes(w);
    assert d[..32] == d;
    WordsBytesAt(w, 0);
    WordsBytesAt(w, 1);
    WordsBytesAt(w, 2);
    WordsBytesAt(w, 3);
  }

  /** Each word of a state is written with its least significant byte first. */
  lemma {:induction false} WordsBytesAt(h: seq<uint32>, i: nat)
    requires i < |h|
    ensures FromLe32(WordsBytes(h)[4 * i..4 * i + 4]) == h[i]
  {
    hide Le32, FromLe32;
    var n := |h| - 1;
    var front, last := WordsBytes(h[..n]), Le32(h[n]);
    assert WordsBytes(h) == front + last;
    if i < n {
      WordsBytesAt(h[..n], i);
      assert (front + last)[4 * i..4 * i + 4] == front[4 * i..4 * i + 4];
    } else {
      assert (front + last)[4 * i..4 * i + 4] == last;
      Le32RoundTrip(h[i]);
    }
  }

  /* ---- The first state ---- */

  /** Exclusive or with the initial vector leaves the parameters: fanout and depth one, no key, outlen bytes. */
  lemma StartIs(outlen: nat)
    requires outlen <= 32
    ensures Xor(Start(outlen)[0], IV[0], 32) == 0x01010000 + outlen
    ensures Start(outlen)[1..] == IV[1..]
  {
    hide Xor, Or;
    WordPower();
    assert Pow2(8) == 0x100;
    Pow2Add(8, 8);
    hide Pow2;
    OrCommutes(0x01010000, outlen, 32);
    OrIsSum(outlen, 0x0101, 16, 32);
    var p := 0x01010000 + outlen;
    XorCommutes(IV[0], p, 32);
    XorAssociates(p, IV[0], IV[0], 32);
    XorSelf(IV[0], 32);
    XorZero(p, 32);
  }

  /** r is the largest number whose square is at most x. */
  predicate IsRoot(r: nat, x: nat) {
    r * r <= x < (r + 1) * (r + 1)
  }

  /** The initial vector holds the first 32 bits after the point of the square roots of the first eight primes. */
  lemma InitialVector(i: nat)
    requires i < 8
    ensures IsRoot([1, 1, 2, 2, 3, 3, 4, 4][i] * 0x1_0000_0000 + IV[i] as int,
                   [2, 3, 5, 7, 11, 13, 17, 19][i] * 0x1_0000_0000_0000_0000)
  {
    if i == 0 {
    } else if i == 1 {
    } else if i == 2 {
    } else if i == 3 {
    } else if i == 4 {
    } else if i == 5 {
    } else if i == 6 {
    } else {
      assert i == 7;
    }
  }
}
