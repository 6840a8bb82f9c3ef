/** Canonical Huffman codes (section 3.2.2 of RFC 1951), the decoding table and its reader. */
module InflateTable {
  import opened Bits
  import opened InflateReader

  const MAXBITS := 15
  const MAXCODES := 318
  const ERR_OVERSUBSCRIBED := -5

  /* ---- Counting code lengths ---- */

  function CountLen(lengths: seq<int>, l: int): (c: nat)
    ensures c <= |lengths|
  {
    if lengths == [] then 0
    else CountLen(lengths[..|lengths| - 1], l) + if lengths[|lengths| - 1] == l then 1 else 0
  }

  /** The symbol whose length is the r-th entry equal to l. */
  function NthOf(lengths: seq<int>, l: int, r: nat): (s: nat)
    requires r < CountLen(lengths, l)
    ensures s < |lengths| && lengths[s] == l && CountLen(lengths[..s], l) == r
  {
    var front := lengths[..|lengths| - 1];
    if r == CountLen(front, l) then
      |front|
    else
      var s := NthOf(front, l, r);
      assert front[..s] == lengths[..s];
      s
  }

  lemma {:induction false} CountPrefix(lengths: seq<int>, l: int, k: nat)
    requires k <= |lengths|
    ensures CountLen(lengths[..k], l) <= CountLen(lengths, l)
    ensures k < |lengths| && lengths[k] == l ==> CountLen(lengths[..k], l) < CountLen(lengths, l)
    decreases |lengths|
  {
    if k == |lengths| {
      assert lengths[..k] == lengths;
    } else {
      var front := lengths[..|lengths| - 1];
      assert front[..k] == lengths[..k];
      CountPrefix(front, l, k);
    }
  }

  /** Number of earlier symbols of the same length. */
  function Rank(lengths: seq<int>, s: nat): (r: nat)
    requires s < |lengths|
    ensures r < CountLen(lengths, lengths[s])
  {
    CountPrefix(lengths, lengths[s], s);
    CountLen(lengths[..s], lengths[s])
  }

  lemma {:induction false} NthOfRank(lengths: seq<int>, s: nat)
    requires s < |lengths|
    ensures NthOf(lengths, lengths[s], Rank(lengths, s)) == s
    decreases |lengths|
  {
    var front := lengths[..|lengths| - 1];
    assert front[..s] == lengths[..s];
    if s < |front| {
      CountPrefix(front, front[s], s);
      NthOfRank(front, s);
    }
  }

  /* ---- Code values ---- */

  /** Smallest code of length l. */
  function First(lengths: seq<int>, l: nat): nat {
    if l <= 1 then 0 else 2 * (First(lengths, l - 1) + CountLen(lengths, l - 1))
  }

  /** Number of symbols with shorter codes. */
  function Offset(lengths: seq<int>, l: nat): nat {
    if l <= 1 then 0 else Offset(lengths, l - 1) + CountLen(lengths, l - 1)
  }

  /** Codes of length l still free once the shorter and equal lengths are served. */
  function Left(lengths: seq<int>, l: nat): int {
    if l == 0 then 1 else 2 * Left(lengths, l - 1) - CountLen(lengths, l)
  }

  /** No length asks for more codes than there are. */
  ghost predicate Accepted(lengths: seq<int>) {
    forall l | 1 <= l <= MAXBITS :: Left(lengths, l) >= 0
  }

  predicate Coded(lengths: seq<int>, s: nat) {
    s < |lengths| && 1 <= lengths[s] <= MAXBITS
  }

  lemma {:induction false} CodesAndFree(lengths: seq<int>, l: nat)
    requires l >= 1
    ensures First(lengths, l) + CountLen(lengths, l) + Left(lengths, l) == Pow2(l)
  {
    if l == 1 {
      assert Left(lengths, 0) == 1 && Pow2(1) == 2 * Pow2(0);
    } else {
      CodesAndFree(lengths, l - 1);
    }
  }

  lemma {:induction false} OffsetSnoc(front: seq<int>, x: int, l: nat)
    ensures Offset(front + [x], l) == Offset(front, l) + if 1 <= x < l then 1 else 0
  {
    if l > 1 {
      OffsetSnoc(front, x, l - 1);
      assert (front + [x])[..|front|] == front;
    }
  }

  lemma {:induction false} OffsetAtMost(lengths: seq<int>, l: nat)
    ensures Offset(lengths, l) <= |lengths|
    decreases |lengths|
  {
    if lengths == [] {
      OffsetEmpty(l);
    } else {
      var front := lengths[..|lengths| - 1];
      assert lengths == front + [lengths[|lengths| - 1]];
      OffsetSnoc(front, lengths[|lengths| - 1], l);
      OffsetAtMost(front, l);
    }
  }

  lemma {:induction false} OffsetEmpty(l: nat)
    ensures Offset([], l) == 0
  {
    if l > 1 {
      OffsetEmpty(l - 1);
    }
  }

  lemma {:induction false} OffsetMonotone(lengths: seq<int>, a: nat, b: nat)
    requires 1 <= a < b
    ensures Offset(lengths, a) + CountLen(lengths, a) <= Offset(lengths, b)
    decreases b
  {
    if a < b - 1 {
      OffsetMonotone(lengths, a, b - 1);
    }
  }

  /** The slots of two different (length, rank) pairs differ. */
  lemma SlotsDiffer(lengths: seq<int>, l: nat, r: nat, l': nat, r': nat)
    requires 1 <= l && 1 <= l' && r < CountLen(lengths, l) && r' < CountLen(lengths, l')
    requires l != l' || r != r'
    ensures Offset(lengths, l) + r != Offset(lengths, l') + r'
  {
    if l < l' {
      OffsetMonotone(lengths, l, l');
    } else if l' < l {
      OffsetMonotone(lengths, l', l);
    }
  }

  lemma SlotInRange(lengths: seq<int>, l: nat, r: nat)
    requires 1 <= l && r < CountLen(lengths, l)
    ensures Offset(lengths, l) + r < |lengths|
  {
    hide CountLen;
    OffsetAtMost(lengths, l + 1);
    assert Offset(lengths, l + 1) == Offset(lengths, l) + CountLen(lengths, l);
  }

  /* ---- Code words ---- */

  /** The n low bits of v, most significant first. */
  function MsbBits(v: nat, n: nat): (r: seq<bit>)
    ensures |r| == n
  {
    if n == 0 then [] else MsbBits(v / 2, n - 1) + [v % 2]
  }

  lemma {:induction false} MsbBitsValue(v: nat, n: nat)
    requires v < Pow2(n)
    ensures ValueMsb(MsbBits(v, n)) == v
  {
    if n > 0 {
      MsbBitsValue(v / 2, n - 1);
      assert MsbBits(v, n)[..n - 1] == MsbBits(v / 2, n - 1);
    }
  }

  lemma {:induction false} MsbBitsOfValue(bs: seq<bit>)
    ensures MsbBits(ValueMsb(bs), |bs|) == bs
  {
    if bs != [] {
      MsbBitsOfValue(bs[..|bs| - 1]);
    }
  }

  /** The code of symbol s. */
  function CodeWord(lengths: seq<int>, s: nat): (w: seq<bit>)
    requires Coded(lengths, s)
    ensures |w| == lengths[s]
  {
    MsbBits(First(lengths, lengths[s]) + Rank(lengths, s), lengths[s])
  }

  lemma CodeWordValue(lengths: seq<int>, s: nat)
    requires Coded(lengths, s) && Accepted(lengths)
    ensures ValueMsb(CodeWord(lengths, s)) == First(lengths, lengths[s]) + Rank(lengths, s)
  {
    CodesAndFree(lengths, lengths[s]);
    MsbBitsValue(First(lengths, lengths[s]) + Rank(lengths, s), lengths[s]);
  }

  /* ---- The code words in order ---- */

  /** The share of the code space that a code word of length l takes, in units of 2^-15. */
  function Share(l: int): nat {
    if 1 <= l <= MAXBITS then Pow2(MAXBITS - l) else 0
  }

  /** The shares of those of the first n symbols that come before symbol s of length l: shorter codes first,
      symbols of the same length in their own order. */
  function SharesBefore(lengths: seq<int>, l: nat, s: nat, n: nat): nat
    requires n <= |lengths|
  {
    if n == 0 then 0
    else
      SharesBefore(lengths, l, s, n - 1) +
      if lengths[n - 1] < l || (lengths[n - 1] == l && n - 1 < s) then Share(lengths[n - 1]) else 0
  }

  lemma {:induction false} FirstSnoc(front: seq<int>, x: int, l: nat)
    requires 1 <= l <= MAXBITS
    ensures First(front + [x], l) * Share(l) == First(front, l) * Share(l) + if x < l then Share(x) else 0
  {
    if l > 1 {
      hide First, CountLen, Share;
      FirstSnoc(front, x, l - 1);
      CountOneMore(front, x, l - 1);
      FirstStep(front, l);
      FirstStep(front + [x], l);
      ShareStep(l);
      ScaledStep(First(front, l - 1), First(front + [x], l - 1), CountLen(front, l - 1), x == l - 1, Share(l),
        if x < l - 1 then Share(x) else 0);
    }
  }

  lemma ScaledStep(h: nat, h': nat, c: nat, more: bool, w: nat, t: nat)
    requires h' * (2 * w) == h * (2 * w) + t
    ensures var c' := if more then c + 1 else c;
            (2 * (h' + c')) * w == (2 * (h + c)) * w + t + if more then 2 * w else 0
  {
    Doubled(h, c, w);
    Doubled(h', c, w);
    Doubled(h', c + 1, w);
    assert (c + 1) * (2 * w) == c * (2 * w) + 2 * w;
  }

  lemma FirstStep(lengths: seq<int>, l: nat)
    requires l > 1
    ensures First(lengths, l) == 2 * (First(lengths, l - 1) + CountLen(lengths, l - 1))
  {
  }

  lemma ShareStep(l: nat)
    requires 1 < l <= MAXBITS
    ensures Share(l - 1) == 2 * Share(l)
  {
  }

  lemma Distribute(a: nat, b: nat, w: nat)
    ensures (a + b) * w == a * w + b * w
  {
  }

  lemma Doubled(h: nat, c: nat, w: nat)
    ensures 2 * (h + c) * w == h * (2 * w) + c * (2 * w)
  {
  }

  lemma CountOneMore(front: seq<int>, x: int, l: int)
    ensures CountLen(front + [x], l) == CountLen(front, l) + if x == l then 1 else 0
  {
    assert (front + [x])[..|front|] == front;
  }

  lemma {:induction false} SharesCounted(lengths: seq<int>, l: nat, s: nat, n: nat)
    requires 1 <= l <= MAXBITS && n <= |lengths|
    ensures var k := if s < n then s else n;
            SharesBefore(lengths, l, s, n) ==
            First(lengths[..n], l) * Share(l) + CountLen(lengths[..k], l) * Share(l)
  {
    hide First, CountLen, Share;
    if n == 0 {
      NothingBefore(l);
      assert lengths[..0] == [];
    } else {
      SharesCounted(lengths, l, s, n - 1);
      var x := lengths[n - 1];
      assert lengths[..n] == lengths[..n - 1] + [x];
      FirstSnoc(lengths[..n - 1], x, l);
      CountOneMore(lengths[..n - 1], x, l);
      Distribute(CountLen(lengths[..n - 1], l), 1, Share(l));
    }
  }

  lemma {:induction false} NothingBefore(l: nat)
    ensures First([], l) == 0 && CountLen([], l) == 0
  {
    if l > 1 {
      NothingBefore(l - 1);
    }
  }

  /** Read as a binary fraction, a code word is the sum of the shares of all code words before it. */
  lemma CodeWordIsSum(lengths: seq<int>, s: nat)
    requires Coded(lengths, s) && Accepted(lengths)
    ensures ValueMsb(CodeWord(lengths, s)) * Pow2(MAXBITS - lengths[s]) ==
            SharesBefore(lengths, lengths[s], s, |lengths|)
  {
    hide First, CountLen, ValueMsb;
    var l := lengths[s];
    CodeWordValue(lengths, s);
    SharesCounted(lengths, l, s, |lengths|);
    assert lengths[..|lengths|] == lengths;
    Distribute(First(lengths, l), CountLen(lengths[..s], l), Share(l));
  }

  /* ---- Decoding one symbol ---- */

  /** The first len bits, read as a number, are the code of some symbol or precede one. */
  ghost predicate Hit(lengths: seq<int>, p: seq<bit>, len: nat)
    requires len <= |p|
  {
    ValueMsb(p[..len]) < First(lengths, len) + CountLen(lengths, len)
  }

  /** The least number of bits that hit, or 16. */
  ghost function FirstHit(lengths: seq<int>, p: seq<bit>, from: nat): (len: nat)
    requires |p| == MAXBITS && 1 <= from <= MAXBITS + 1
    ensures from <= len <= MAXBITS + 1
    ensures len <= MAXBITS ==> Hit(lengths, p, len)
    ensures forall k | from <= k < len :: !Hit(lengths, p, k)
    decreases MAXBITS + 1 - from
  {
    if from > MAXBITS || Hit(lengths, p, from) then from else FirstHit(lengths, p, from + 1)
  }

  lemma ValueMsbSnoc(p: seq<bit>, len: nat)
    requires 1 <= len <= |p|
    ensures ValueMsb(p[..len]) == 2 * ValueMsb(p[..len - 1]) + p[len - 1]
  {
    assert p[..len][..len - 1] == p[..len - 1];
  }

  /** Before any hit the bits read are at least the first code of the next length. */
  lemma {:induction false} AtLeastFirst(lengths: seq<int>, p: seq<bit>, len: nat)
    requires 1 <= len <= |p|
    requires forall k | 1 <= k < len :: !Hit(lengths, p, k)
    ensures ValueMsb(p[..len]) >= First(lengths, len)
  {
    ValueMsbSnoc(p, len);
    if len > 1 {
      AtLeastFirst(lengths, p, len - 1);
      assert !Hit(lengths, p, len - 1);
    }
  }

  /** A decoded symbol (-1 for no code) and the number of bits it takes. */
  datatype Decoded = Decoded(sym: int, used: nat)

  ghost function DecodeSym(lengths: seq<int>, bs: seq<bit>): (d: Decoded)
    ensures -1 <= d.sym < |lengths| && 1 <= d.used <= MAXBITS
  {
    var p := Take(bs, MAXBITS);
    var len := FirstHit(lengths, p, 1);
    if len > MAXBITS then Decoded(-1, MAXBITS)
    else
      AtLeastFirst(lengths, p, len);
      Decoded(NthOf(lengths, len, ValueMsb(p[..len]) - First(lengths, len)), len)
  }

  lemma {:induction false} FirstGrows(lengths: seq<int>, k: nat, len: nat)
    requires 1 <= k < len
    ensures First(lengths, len) >= Pow2(len - k) * (First(lengths, k) + CountLen(lengths, k))
    decreases len
  {
    var x := First(lengths, k) + CountLen(lengths, k);
    assert Pow2(1) == 2 * Pow2(0);
    if k < len - 1 {
      FirstGrows(lengths, k, len - 1);
      DoublePow(len - k, x);
    }
  }

  lemma DoublePow(n: nat, x: nat)
    requires n > 0
    ensures Pow2(n) * x == 2 * (Pow2(n - 1) * x)
  {
  }

  lemma {:induction false} ValueMsbPrefix(w: seq<bit>, k: nat)
    requires k <= |w|
    ensures ValueMsb(w) < Pow2(|w| - k) * (ValueMsb(w[..k]) + 1)
    decreases |w|
  {
    if k == |w| {
      assert w[..k] == w;
    } else {
      var front := w[..|w| - 1];
      assert front[..k] == w[..k];
      ValueMsbPrefix(front, k);
      DoublePow(|w| - k, ValueMsb(w[..k]) + 1);
    }
  }

  /** A proper prefix of a code word is no hit. */
  lemma NoEarlyHit(lengths: seq<int>, s: nat, p: seq<bit>, k: nat)
    requires Coded(lengths, s) && Accepted(lengths) && |p| == MAXBITS
    requires CodeWord(lengths, s) <= p && 1 <= k < lengths[s]
    ensures !Hit(lengths, p, k)
  {
    var w := CodeWord(lengths, s);
    var n := lengths[s];
    CodeWordValue(lengths, s);
    FirstGrows(lengths, k, n);
    assert w[..k] == p[..k];
    ValueMsbPrefix(w, k);
    if Hit(lengths, p, k) {
      MulMono(Pow2(n - k), ValueMsb(w[..k]) + 1, First(lengths, k) + CountLen(lengths, k));
    }
  }

  lemma MulMono(m: nat, a: nat, b: nat)
    requires a <= b
    ensures m * a <= m * b
  {
  }

  /** Bits that begin with the code word of s decode to s, taking exactly its length. */
  lemma DecodesCodeWord(lengths: seq<int>, s: nat, rest: seq<bit>)
    requires Coded(lengths, s) && Accepted(lengths)
    ensures DecodeSym(lengths, CodeWord(lengths, s) + rest) == Decoded(s, lengths[s])
  {
    hide First, CountLen, FirstHit, MsbBits, ValueMsb, NthOf, Accepted;
    var w := CodeWord(lengths, s);
    var p := Take(w + rest, MAXBITS);
    assert p[..lengths[s]] == w;
    CodeWordValue(lengths, s);
    HitsAtLength(lengths, s, p);
    NthOfRank(lengths, s);
  }

  lemma HitsAtLength(lengths: seq<int>, s: nat, p: seq<bit>)
    requires Coded(lengths, s) && Accepted(lengths) && |p| == MAXBITS && p[..lengths[s]] == CodeWord(lengths, s)
    ensures FirstHit(lengths, p, 1) == lengths[s]
  {
    CodeWordValue(lengths, s);
    assert Hit(lengths, p, lengths[s]);
    var len := FirstHit(lengths, p, 1);
    if len < lengths[s] {
      NoEarlyHit(lengths, s, p, len);
    }
  }

  /** Conversely, a decoded symbol's code word is what was read. */
  lemma DecodedCodeWord(lengths: seq<int>, bs: seq<bit>)
    requires var d := DecodeSym(lengths, bs); d.sym != -1 && d.used <= |bs|
    ensures var d := DecodeSym(lengths, bs);
            && d.sym >= 0 && Coded(lengths, d.sym) && lengths[d.sym] == d.used
            && CodeWord(lengths, d.sym) == bs[..d.used]
  {
    var p := Take(bs, MAXBITS);
    var len := FirstHit(lengths, p, 1);
    var v := ValueMsb(p[..len]);
    AtLeastFirst(lengths, p, len);
    WordOfNth(lengths, len, v - First(lengths, len));
    MsbBitsOfValue(p[..len]);
    assert p[..len] == bs[..len];
  }

  lemma WordOfNth(lengths: seq<int>, len: nat, r: nat)
    requires 1 <= len <= MAXBITS && r < CountLen(lengths, len)
    ensures CodeWord(lengths, NthOf(lengths, len, r)) == MsbBits(First(lengths, len) + r, len)
  {
  }

  /** Accepted lengths give a prefix-free code. */
  lemma CodesPrefixFree(lengths: seq<int>, s: nat, s': nat)
    requires Coded(lengths, s) && Coded(lengths, s') && Accepted(lengths) && s != s'
    ensures !(CodeWord(lengths, s) <= CodeWord(lengths, s'))
  {
    var w, w' := CodeWord(lengths, s), CodeWord(lengths, s');
    if w <= w' {
      assert w + w'[|w|..] == w' == w' + [];
      DecodesCodeWord(lengths, s, w'[|w|..]);
      DecodesCodeWord(lengths, s', []);
    }
  }

  /* ---- The table in memory ---- */

  class Huffman {
    const count: array<nat>
    const symbol: array<int>

    ghost predicate Shape()
      reads this
    {
      count.Length == MAXBITS + 1 && symbol.Length == MAXCODES
    }

    /** The table of the given lengths; without acceptance the symbols are not filled in. */
    ghost predicate TableOf(lengths: seq<int>)
      reads this, count, symbol
    {
      && Shape() && |lengths| <= MAXCODES
      && (forall l | 1 <= l <= MAXBITS :: count[l] == CountLen(lengths, l))
      && (Accepted(lengths) ==> Filled(symbol[..], lengths, lengths))
    }

    constructor ()
      ensures Shape() && fresh(count) && fresh(symbol)
    {
      count := new nat[MAXBITS + 1](_ => 0);
      symbol := new int[MAXCODES];
    }
  }

  /** Every symbol of part stands at the slot the whole of lengths gives it. */
  ghost predicate Filled(symbol: seq<int>, lengths: seq<int>, part: seq<int>) {
    forall l: nat, r: nat | 1 <= l <= MAXBITS && r < CountLen(part, l) :: SlotHolds(symbol, lengths, part, l, r)
  }

  ghost predicate SlotHolds(symbol: seq<int>, lengths: seq<int>, part: seq<int>, l: nat, r: nat)
    requires r < CountLen(part, l)
  {
    Offset(lengths, l) + r < |symbol| && symbol[Offset(lengths, l) + r] == NthOf(part, l, r)
  }

  lemma {:induction false} CountSnoc(lengths: seq<int>, k: nat, l: int)
    requires k < |lengths|
    ensures CountLen(lengths[..k + 1], l) == CountLen(lengths[..k], l) + if lengths[k] == l then 1 else 0
  {
    assert lengths[..k + 1][..k] == lengths[..k];
  }

  lemma NthOfSnoc(lengths: seq<int>, k: nat, l: int, r: nat)
    requires k < |lengths| && r < CountLen(lengths[..k + 1], l)
    ensures if r < CountLen(lengths[..k], l) then NthOf(lengths[..k + 1], l, r) == NthOf(lengths[..k], l, r)
            else lengths[k] == l && r == CountLen(lengths[..k], l) && NthOf(lengths[..k + 1], l, r) == k
  {
    assert lengths[..k + 1][..k] == lengths[..k];
  }

  lemma FilledMore(symbol: seq<int>, lengths: seq<int>, k: nat, l0: nat, slot: nat)
    requires k < |lengths| && Filled(symbol, lengths, lengths[..k])
    requires lengths[k] == l0 && 1 <= l0 <= MAXBITS && slot == Offset(lengths, l0) + CountLen(lengths[..k], l0)
    requires slot < |symbol|
    ensures Filled(symbol[slot := k], lengths, lengths[..k + 1])
  {
    var symbol' := symbol[slot := k];
    var more := lengths[..k + 1];
    forall l: nat, r: nat | 1 <= l <= MAXBITS && r < CountLen(more, l)
      ensures SlotHolds(symbol', lengths, more, l, r)
    {
      CountPrefix(lengths, l, k);
      CountPrefix(lengths, l, k + 1);
      CountPrefix(lengths, l0, k);
      NthOfSnoc(lengths, k, l, r);
      if r < CountLen(lengths[..k], l) {
        assert SlotHolds(symbol, lengths, lengths[..k], l, r);
        SlotsDiffer(lengths, l, r, l0, CountLen(lengths[..k], l0));
      }
    }
  }

  lemma FilledSkip(symbol: seq<int>, lengths: seq<int>, k: nat)
    requires k < |lengths| && Filled(symbol, lengths, lengths[..k]) && !Coded(lengths, k)
    ensures Filled(symbol, lengths, lengths[..k + 1])
  {
    var more := lengths[..k + 1];
    forall l: nat, r: nat | 1 <= l <= MAXBITS && r < CountLen(more, l)
      ensures SlotHolds(symbol, lengths, more, l, r)
    {
      NthOfSnoc(lengths, k, l, r);
      assert SlotHolds(symbol, lengths, lengths[..k], l, r);
    }
  }

  method CountLengths(h: Huffman, lengths: seq<int>)
    requires h.Shape()
    modifies h.count
    ensures forall l | 1 <= l <= MAXBITS :: h.count[l] == CountLen(lengths, l)
  {
    for len := 0 to MAXBITS + 1
      invariant forall l | 0 <= l < len :: h.count[l] == 0
    {
      h.count[len] := 0;
    }
    for sym := 0 to |lengths|
      invariant forall l | 1 <= l <= MAXBITS :: h.count[l] == CountLen(lengths[..sym], l)
    {
      assert lengths[..sym + 1][..sym] == lengths[..sym];
      if lengths[sym] > 0 && lengths[sym] <= MAXBITS {
        h.count[lengths[sym]] := h.count[lengths[sym]] + 1;
      }
    }
    assert lengths[..|lengths|] == lengths;
  }

  /** Checks that no length has more codes than there are; the codes left over, or -5. */
  method CheckSubscription(h: Huffman, lengths: seq<int>) returns (left: int)
    requires h.Shape() && forall l | 1 <= l <= MAXBITS :: h.count[l] == CountLen(lengths, l)
    ensures if Accepted(lengths) then left == Left(lengths, MAXBITS) >= 0 else left == ERR_OVERSUBSCRIBED
  {
    left := 1;
    for len := 1 to MAXBITS + 1
      invariant left == Left(lengths, len - 1)
      invariant forall l | 1 <= l < len :: Left(lengths, l) >= 0
    {
      left := 2 * left - h.count[len];
      if left < 0 {
        assert Left(lengths, len) < 0;
        return ERR_OVERSUBSCRIBED;
      }
    }
  }

  method SlotStarts(h: Huffman, lengths: seq<int>) returns (offs: array<nat>)
    requires h.Shape() && forall l | 1 <= l <= MAXBITS :: h.count[l] == CountLen(lengths, l)
    ensures fresh(offs) && offs.Length == MAXBITS + 1
    ensures forall l | 1 <= l <= MAXBITS :: offs[l] == Offset(lengths, l)
  {
    offs := new nat[MAXBITS + 1](_ => 0);
    for len := 1 to MAXBITS
      invariant forall l | 1 <= l <= len :: offs[l] == Offset(lengths, l)
    {
      offs[len + 1] := offs[len] + h.count[len];
    }
  }

  method FillSymbols(h: Huffman, lengths: seq<int>, offs: array<nat>)
    requires h.Shape() && |lengths| <= MAXCODES && offs.Length == MAXBITS + 1 && offs != h.count
    requires forall l | 1 <= l <= MAXBITS :: offs[l] == Offset(lengths, l)
    modifies h.symbol, offs
    ensures Filled(h.symbol[..], lengths, lengths)
  {
    for sym := 0 to |lengths|
      invariant forall l | 1 <= l <= MAXBITS :: offs[l] == Offset(lengths, l) + CountLen(lengths[..sym], l)
      invariant Filled(h.symbol[..], lengths, lengths[..sym])
    {
      var l := lengths[sym];
      assert lengths[..sym + 1][..sym] == lengths[..sym];
      if l > 0 && l <= MAXBITS {
        CountPrefix(lengths, l, sym);
        SlotInRange(lengths, l, CountLen(lengths[..sym], l));
        FilledMore(h.symbol[..], lengths, sym, l, offs[l]);
        h.symbol[offs[l]] := sym;
        offs[l] := offs[l] + 1;
      } else {
        FilledSkip(h.symbol[..], lengths, sym);
      }
    }
    assert lengths[..|lengths|] == lengths;
  }

  /** Builds the table: 0 for a complete code, positive for unused codes, -5 if oversubscribed. */
  method Construct(h: Huffman, lengths: seq<int>) returns (r: int)
    requires h.Shape() && |lengths| <= MAXCODES
    modifies h.count, h.symbol
    ensures h.TableOf(lengths)
    ensures if Accepted(lengths) then r == Left(lengths, MAXBITS) >= 0 else r == ERR_OVERSUBSCRIBED
  {
    CountLengths(h, lengths);
    r := CheckSubscription(h, lengths);
    if r < 0 {
      return;
    }
    var offs := SlotStarts(h, lengths);
    FillSymbols(h, lengths, offs);
  }

  /** What is known of the decoder after len bits without a hit. */
  ghost predicate Searching(lengths: seq<int>, p: seq<bit>, len: nat, code: nat, first: nat, index: nat)
    requires |p| == MAXBITS && 1 <= len <= MAXBITS + 1
  {
    && (forall k | 1 <= k < len :: !Hit(lengths, p, k))
    && code == ValueMsb(p[..len - 1])
    && (len <= MAXBITS ==> first == First(lengths, len)) && index == Offset(lengths, len)
  }

  lemma FirstHitIs(lengths: seq<int>, p: seq<bit>, len: nat)
    requires |p| == MAXBITS && 1 <= len <= MAXBITS + 1
    requires forall k | 1 <= k < len :: !Hit(lengths, p, k)
    requires len <= MAXBITS ==> Hit(lengths, p, len)
    ensures FirstHit(lengths, p, 1) == len
  {
    var f := FirstHit(lengths, p, 1);
  }

  lemma SearchOn(lengths: seq<int>, p: seq<bit>, len: nat, code: nat, first: nat, index: nat, count: nat)
    requires |p| == MAXBITS && 1 <= len <= MAXBITS && Searching(lengths, p, len, code, first, index)
    requires count == CountLen(lengths, len)
    ensures 2 * code + p[len - 1] >= first
    ensures Hit(lengths, p, len) <==> 2 * code + p[len - 1] - count < first
    ensures !Hit(lengths, p, len) ==>
              Searching(lengths, p, len + 1, 2 * code + p[len - 1], 2 * (first + count), index + count)
  {
    ValueMsbSnoc(p, len);
    AtLeastFirst(lengths, p, len);
  }

  lemma FoundAt(lengths: seq<int>, bs: seq<bit>, len: nat, code: nat, first: nat, index: nat)
    requires 1 <= len <= MAXBITS && Searching(lengths, Take(bs, MAXBITS), len, code, first, index)
    requires Hit(lengths, Take(bs, MAXBITS), len)
    ensures var v := 2 * code + Take(bs, MAXBITS)[len - 1];
            && 0 <= v - first < CountLen(lengths, len)
            && DecodeSym(lengths, bs) == Decoded(NthOf(lengths, len, v - first), len)
            && index + (v - first) < |lengths|
  {
    var p := Take(bs, MAXBITS);
    FirstHitIs(lengths, p, len);
    ValueMsbSnoc(p, len);
    AtLeastFirst(lengths, p, len);
    SlotInRange(lengths, len, ValueMsb(p[..len]) - first);
  }

  method SymbolFound(h: Huffman, code: nat, first: nat, index: nat, ghost lengths: seq<int>, ghost bs: seq<bit>,
                     ghost len: nat, ghost before: nat) returns (sym: int)
    requires h.TableOf(lengths) && 1 <= len <= MAXBITS
    requires Searching(lengths, Take(bs, MAXBITS), len, before, first, index)
    requires Hit(lengths, Take(bs, MAXBITS), len) && code == 2 * before + Take(bs, MAXBITS)[len - 1]
    ensures DecodeSym(lengths, bs).sym != -1 && DecodeSym(lengths, bs).used == len
    ensures Accepted(lengths) ==> sym == DecodeSym(lengths, bs).sym
  {
    FoundAt(lengths, bs, len, before, first, index);
    assert Accepted(lengths) ==> SlotHolds(h.symbol[..], lengths, lengths, len, code - first);
    sym := h.symbol[index + (code - first)];
  }

  /** The next symbol. With an accepted table this is DecodeSym on the pending bits; with any
      table the symbol index stays inside the symbol array. */
  method Decode(s: Inf, h: Huffman, ghost lengths: seq<int>) returns (sym: int)
    requires s.Valid() && h.TableOf(lengths)
    modifies s`inPos, s`bitBuf, s`bitCnt, s`err
    ensures s.Valid()
    ensures var bs, d := old(s.Pending()), DecodeSym(lengths, old(s.Pending()));
            && s.Pending() == Drop(bs, d.used)
            && s.err == (if d.sym == -1 then ERR_BADCODE else ErrAfter(old(s.err), bs, d.used))
            && (d.sym == -1 || Accepted(lengths) ==> sym == d.sym)
    ensures s.err == 0 ==> |s.Pending()| < |old(s.Pending())|
  {
    hide Inf.Pending, Inf.Valid, Searching, DecodeSym;
    var code: nat, first: nat, index: nat := 0, 0, 0;
    ghost var bs := s.Pending();
    ghost var p := Take(bs, MAXBITS);
    StartSearch(lengths, p);
    for len := 1 to MAXBITS + 1
      invariant s.Valid() && Searching(lengths, p, len, code, first, index)
      invariant s.Pending() == Drop(bs, len - 1) && s.err == ErrAfter(old(s.err), bs, len - 1)
    {
      var b := s.ReadBit();
      ReadNth(bs, len - 1);
      var count := h.count[len];
      SearchOn(lengths, p, len, code, first, index, count);
      var next: nat := 2 * code + b;
      if next - count < first {
        sym := SymbolFound(h, next, first, index, lengths, bs, len, code);
        return;
      }
      code := next;
      index := index + count;
      first := 2 * (first + count);
    }
    NotFound(lengths, bs, code, first, index);
    s.SetErr(ERR_BADCODE);
    sym := -1;
  }

  lemma StartSearch(lengths: seq<int>, p: seq<bit>)
    requires |p| == MAXBITS
    ensures Searching(lengths, p, 1, 0, 0, 0)
  {
    assert p[..0] == [];
  }

  lemma NotFound(lengths: seq<int>, bs: seq<bit>, code: nat, first: nat, index: nat)
    requires Searching(lengths, Take(bs, MAXBITS), MAXBITS + 1, code, first, index)
    ensures DecodeSym(lengths, bs) == Decoded(-1, MAXBITS)
  {
    FirstHitIs(lengths, Take(bs, MAXBITS), MAXBITS + 1);
  }

  lemma ReadNth(bs: seq<bit>, k: nat)
    requires k < MAXBITS
    ensures Take(Drop(bs, k), 1)[0] == Take(bs, MAXBITS)[k]
    ensures Drop(Drop(bs, k), 1) == Drop(bs, k + 1)
    ensures forall err :: ErrAfter(ErrAfter(err, bs, k), Drop(bs, k), 1) == ErrAfter(err, bs, k + 1)
  {
  }
}
