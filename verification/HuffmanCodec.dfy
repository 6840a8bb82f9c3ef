/** assign_codes, encode, decode and the round trip over a whole message. */
module HuffmanCodec {
  import opened Bits
  import opened HuffmanCost
  import opened HuffmanTree
  import opened HuffmanHeap
  import opened HuffmanForest
  import opened HuffmanBuild

  const MAX_BITS := 4096

  /** Code bits, first bit least significant, and their number (0 = unused symbol). */
  datatype HCode = HCode(bits: uint32, length: nat)

  /** The code written for a leaf reached by path p. */
  ghost predicate IsCode(c: HCode, p: seq<bit>) {
    c.bits == ValueLsb(p) && c.length == if |p| > 0 then |p| else 1
  }

  function CodeBits(c: HCode): (r: seq<bit>)
    ensures |r| == c.length
  {
    seq(c.length, k requires 0 <= k < c.length => (c.bits / Pow2(k)) % 2)
  }

  lemma CodeBitsOfPath(c: HCode, p: seq<bit>)
    requires IsCode(c, p)
    ensures CodeBits(c) == if p == [] then [0] else p
  {
    forall k | 0 <= k < |p| ensures CodeBits(c)[k] == p[k] {
      ValueLsbDigit(p, k);
    }
  }

  /* ---- assign_codes ---- */

  /** x | (1 << k) for an x below 2^k. */
  function OrBit(x: nat, k: nat): nat
    requires x < Pow2(k)
  {
    x + Pow2(k)
  }

  lemma Pow2Of32()
    ensures Pow2(32) == 0x1_0000_0000
  {
    assert Pow2(8) == 256;
    Pow2Add(8, 8);
    Pow2Add(16, 16);
  }

  lemma PrefixFits(prefix: seq<bit>)
    requires |prefix| <= 32
    ensures ValueLsb(prefix) < Pow2(|prefix|) && ValueLsb(prefix) < WORD
  {
    ValueLsbBound(prefix);
    Pow2Monotone(|prefix|, 32);
    Pow2Of32();
  }

  lemma OneMoreBit(prefix: seq<bit>, b: bit)
    ensures ValueLsb(prefix + [b]) == ValueLsb(prefix) + if b == 0 then 0 else Pow2(|prefix|)
  {
    ValueLsbAppend(prefix, [b]);
    TimesBit(Pow2(|prefix|), b);
  }

  lemma TimesBit(p: nat, b: bit)
    ensures ValueLsb([b]) == b && p * b == if b == 0 then 0 else p
  {
  }

  lemma PrefixGrows(prefix: seq<bit>)
    requires |prefix| < 32
    ensures ValueLsb(prefix) < Pow2(|prefix|)
    ensures ValueLsb(prefix + [0]) == ValueLsb(prefix)
    ensures ValueLsb(prefix + [1]) == OrBit(ValueLsb(prefix), |prefix|) < WORD
  {
    PrefixFits(prefix);
    PrefixFits(prefix + [1]);
    OneMoreBit(prefix, 0);
    OneMoreBit(prefix, 1);
  }

  function Child(t: Tree, b: bit): Tree
    requires t.Node?
  {
    if b == 1 then t.right else t.left
  }

  lemma PathDown(t: Tree, s: byte, prefix: seq<bit>)
    requires t.Node? && s in Symbols(t)
    ensures var b: bit := if s in Symbols(t.left) then 0 else 1;
            s in Symbols(Child(t, b)) && prefix + Path(t, s) == (prefix + [b]) + Path(Child(t, b), s)
  {
    hide Height;
    var b: bit := if s in Symbols(t.left) then 0 else 1;
    assert Path(t, s) == [b] + Path(Child(t, b), s);
  }

  /** The leaf of every symbol of t has its code; no other entry changed. */
  ghost predicate Assigned(t: Tree, prefix: seq<bit>, before: seq<HCode>, after: seq<HCode>) {
    && |before| == |after| == MAX_SYMBOLS
    && forall s: byte :: if s in Symbols(t) then IsCode(after[s], prefix + Path(t, s)) else after[s] == before[s]
  }

  lemma AssignedBoth(t: Tree, prefix: seq<bit>, a: seq<HCode>, b: seq<HCode>, c: seq<HCode>)
    requires t.Node? && Distinct(t)
    requires Assigned(t.left, prefix + [0], a, b) && Assigned(t.right, prefix + [1], b, c)
    ensures Assigned(t, prefix, a, c)
  {
    ChildrenDistinct(t);
    forall s: byte
      ensures if s in Symbols(t) then IsCode(c[s], prefix + Path(t, s)) else c[s] == a[s]
    {
      assert s in Symbols(t) <==> s in Symbols(t.left) || s in Symbols(t.right);
      if s in Symbols(t) {
        PathDown(t, s, prefix);
      }
    }
  }

  method AssignCodes(t: HeapPool, node: nat, bits: uint32, depth: nat, codes: array<HCode>,
                     ghost trees: seq<Tree>, ghost prefix: seq<bit>)
    requires t.nodes.Length == MAX_NODES && Represents(t.nodes[..], trees) && node < |trees|
    requires codes.Length == MAX_SYMBOLS && Distinct(trees[node])
    requires |prefix| == depth && bits == ValueLsb(prefix)
    requires depth + Height(trees[node]) <= 32
    modifies codes
    ensures Assigned(trees[node], prefix, old(codes[..]), codes[..])
    decreases node
  {
    assert NodeIs(t.nodes[..][node], trees, node);
    if t.nodes[node].left == -1 {
      assert prefix + [] == prefix;
      codes[t.nodes[node].symbol] := HCode(bits, if depth > 0 then depth else 1);
    } else {
      ghost var before := codes[..];
      ChildrenDistinct(trees[node]);
      PrefixGrows(prefix);
      AssignCodes(t, t.nodes[node].left, bits, depth + 1, codes, trees, prefix + [0]);
      ghost var middle := codes[..];
      AssignCodes(t, t.nodes[node].right, OrBit(bits, depth), depth + 1, codes, trees, prefix + [1]);
      AssignedBoth(trees[node], prefix, before, middle, codes[..]);
    }
  }

  /* ---- encode ---- */

  /** The code bits of a message, one symbol after the other. */
  function Encoded(codes: seq<HCode>, src: seq<byte>): seq<bit>
    requires |codes| == MAX_SYMBOLS
  {
    if src == [] then [] else Encoded(codes, src[..|src| - 1]) + CodeBits(codes[src[|src| - 1]])
  }

  ghost predicate Encodable(codes: seq<HCode>, src: seq<byte>)
    requires |codes| == MAX_SYMBOLS
  {
    (forall i | 0 <= i < |src| :: codes[src[i]].length > 0) && |Encoded(codes, src)| <= MAX_BITS
  }

  lemma {:induction false} EncodedGrows(codes: seq<HCode>, src: seq<byte>, i: nat)
    requires |codes| == MAX_SYMBOLS && i <= |src|
    ensures |Encoded(codes, src[..i])| <= |Encoded(codes, src)|
    ensures i < |src| ==> Encoded(codes, src[..i + 1]) == Encoded(codes, src[..i]) + CodeBits(codes[src[i]])
    decreases |src|
  {
    if i < |src| {
      assert src[..i + 1][..i] == src[..i];
      var front := src[..|src| - 1];
      assert front[..i] == src[..i];
      EncodedGrows(codes, front, i);
    } else {
      assert src[..i] == src;
    }
  }

  /** The first bits of the buffer. */
  ghost predicate Written(buf: seq<byte>, bs: seq<bit>) {
    |bs| <= 8 * |buf| && BytesToBits(buf)[..|bs|] == bs
  }

  lemma WriteBit(buf: seq<byte>, bs: seq<bit>, v: bit)
    requires Written(buf, bs) && |bs| < 8 * |buf|
    ensures Written(buf[|bs| / 8 := SetBit(buf[|bs| / 8], |bs| % 8, v)], bs + [v])
  {
    var n := |bs|;
    var buf' := buf[n / 8 := SetBit(buf[n / 8], n % 8, v)];
    forall k | 0 <= k < n + 1 ensures BytesToBits(buf')[k] == (bs + [v])[k] {
      if k < n {
        assert BytesToBits(buf)[..n][k] == BytesToBits(buf)[k];
        assert k / 8 == n / 8 ==> k % 8 != n % 8;
      }
    }
    assert BytesToBits(buf')[..n + 1] == bs + [v];
  }

  /** Writes one code; false when the buffer is full first. */
  method EncodeSymbol(c: HCode, bits: array<byte>, bitPos: nat, ghost done: seq<bit>) returns (pos: nat, ok: bool)
    requires bits.Length == MAX_BITS / 8 && bitPos == |done| && Written(bits[..], done)
    modifies bits
    ensures ok <==> bitPos + c.length <= MAX_BITS
    ensures ok ==> pos == bitPos + c.length && Written(bits[..], done + CodeBits(c))
  {
    pos := bitPos;
    assert done + CodeBits(c)[..0] == done;
    for b := 0 to c.length
      invariant pos == bitPos + b <= MAX_BITS
      invariant Written(bits[..], done + CodeBits(c)[..b])
    {
      if pos >= MAX_BITS {
        return pos, false;
      }
      ghost var bs := done + CodeBits(c)[..b];
      WriteBit(bits[..], bs, CodeBits(c)[b]);
      bits[pos / 8] := SetBit(bits[pos / 8], pos % 8, (c.bits / Pow2(b)) % 2);
      assert done + CodeBits(c)[..b + 1] == bs + [CodeBits(c)[b]];
      pos := pos + 1;
    }
    assert CodeBits(c)[..c.length] == CodeBits(c);
    ok := true;
  }

  /** Number of bits written, or -1 for an unused symbol or a full buffer. */
  method Encode(codes: seq<HCode>, src: seq<byte>, bits: array<byte>) returns (r: int)
    requires |codes| == MAX_SYMBOLS && bits.Length == MAX_BITS / 8
    modifies bits
    ensures r == -1 <==> !Encodable(codes, src)
    ensures r != -1 ==> r == |Encoded(codes, src)| && Written(bits[..], Encoded(codes, src))
  {
    var bitPos := 0;
    for i := 0 to |src|
      invariant bitPos == |Encoded(codes, src[..i])| <= MAX_BITS
      invariant Written(bits[..], Encoded(codes, src[..i]))
      invariant forall k | 0 <= k < i :: codes[src[k]].length > 0
    {
      var c := codes[src[i]];
      EncodedGrows(codes, src, i);
      EncodedGrows(codes, src, i + 1);
      if c.length == 0 {
        return -1;
      }
      var ok;
      bitPos, ok := EncodeSymbol(c, bits, bitPos, Encoded(codes, src[..i]));
      if !ok {
        return -1;
      }
    }
    assert src[..|src|] == src;
    r := bitPos;
  }

  /* ---- decode ---- */

  /** The symbols met when the bits are followed from cur, starting again at the root after
      each leaf; an unfinished last word gives nothing. */
  function Walk(root: Tree, cur: Tree, bs: seq<bit>): seq<byte>
    requires root.Node?
    decreases |bs|
  {
    if cur.Leaf? then
      [cur.symbol] + if bs == [] then [] else Walk(root, Child(root, bs[0]), bs[1..])
    else if bs == [] then []
    else Walk(root, Child(cur, bs[0]), bs[1..])
  }

  lemma {:induction false} WalkWord(root: Tree, cur: Tree, s: byte, rest: seq<bit>)
    requires root.Node? && s in Symbols(cur)
    ensures Walk(root, cur, Path(cur, s) + rest) == [s] + Walk(root, root, rest)
  {
    hide Height;
    if cur.Leaf? {
      assert Path(cur, s) + rest == rest;
    } else {
      var b: bit := if s in Symbols(cur.left) then 0 else 1;
      var next := Child(cur, b);
      PathStep(cur, s, rest);
      WalkWord(root, next, s, rest);
    }
  }

  lemma PathStep(cur: Tree, s: byte, rest: seq<bit>)
    requires cur.Node? && s in Symbols(cur)
    ensures var b: bit := if s in Symbols(cur.left) then 0 else 1;
            && s in Symbols(Child(cur, b))
            && Path(cur, s) + rest == [b] + (Path(Child(cur, b), s) + rest)
  {
    hide Height;
  }

  /** Walking the code words of a message gives the message back. */
  lemma {:induction false} WalkWords(t: Tree, codes: seq<HCode>, src: seq<byte>, rest: seq<bit>)
    requires t.Node? && |codes| == MAX_SYMBOLS
    requires forall i | 0 <= i < |src| :: src[i] in Symbols(t) && IsCode(codes[src[i]], Path(t, src[i]))
    ensures Walk(t, t, Encoded(codes, src) + rest) == src + Walk(t, t, rest)
  {
    hide Walk, CodeBits;
    if src == [] {
      assert Encoded(codes, src) + rest == rest;
      assert src + Walk(t, t, rest) == Walk(t, t, rest);
    } else {
      var front, s := src[..|src| - 1], src[|src| - 1];
      var word := CodeBits(codes[s]);
      CodeBitsOfPath(codes[s], Path(t, s));
      WalkWords(t, codes, front, word + rest);
      WalkWord(t, t, s, rest);
      Regroup(Encoded(codes, front), word, rest);
      assert src == front + [s];
      Regroup(front, [s], Walk(t, t, rest));
    }
  }

  lemma Regroup<T>(a: seq<T>, b: seq<T>, c: seq<T>)
    ensures a + b + c == a + (b + c)
  {
  }

  /** A one-leaf tree reads one symbol per bit. */
  method DecodeSingle(symbol: byte, nBits: nat, dst: array<byte>, maxOut: nat) returns (out: nat)
    requires maxOut <= dst.Length
    modifies dst
    ensures out == if nBits <= maxOut then nBits else maxOut
    ensures forall k | 0 <= k < out :: dst[k] == symbol
  {
    var bitPos := 0;
    out := 0;
    while bitPos < nBits && out < maxOut
      invariant out == bitPos <= nBits && out <= maxOut
      invariant forall k | 0 <= k < out :: dst[k] == symbol
    {
      dst[out] := symbol;
      out := out + 1;
      bitPos := bitPos + 1;
    }
  }

  /** What the reader holds after some bits: emitted symbols, the current node, bits to come. */
  ghost predicate Reading(all: seq<byte>, emitted: seq<byte>, root: Tree, cur: Tree, bs: seq<bit>) {
    root.Node? && all == emitted + Walk(root, cur, bs)
  }

  lemma EmitLeaf(all: seq<byte>, emitted: seq<byte>, root: Tree, cur: Tree, bs: seq<bit>)
    requires Reading(all, emitted, root, cur, bs) && cur.Leaf? && bs != []
    ensures Reading(all, emitted + [cur.symbol], root, root, bs) && |all| > |emitted|
  {
    assert emitted + [cur.symbol] + Walk(root, root, bs) == emitted + ([cur.symbol] + Walk(root, root, bs));
  }

  lemma FollowBit(all: seq<byte>, emitted: seq<byte>, root: Tree, cur: Tree, bs: seq<bit>)
    requires Reading(all, emitted, root, cur, bs) && cur.Node? && bs != []
    ensures Reading(all, emitted, root, Child(cur, bs[0]), bs[1..])
  {
  }

  lemma BitsUsedUp(all: seq<byte>, emitted: seq<byte>, root: Tree, cur: Tree)
    requires Reading(all, emitted, root, cur, [])
    ensures all == emitted + if cur.Leaf? then [cur.symbol] else []
  {
  }

  /** Reads the bits from the root of a tree with at least two leaves. */
  method DecodeTree(t: HeapPool, root: nat, bits: array<byte>, nBits: nat, dst: array<byte>, maxOut: nat,
                    ghost trees: seq<Tree>) returns (r: int)
    requires t.nodes.Length == MAX_NODES && Represents(t.nodes[..], trees) && root < |trees|
    requires trees[root].Node? && bits != dst && nBits <= 8 * bits.Length && maxOut <= dst.Length
    modifies dst
    ensures var out := Walk(trees[root], trees[root], BytesToBits(bits[..])[..nBits]);
            if |out| <= maxOut then r == |out| && dst[..r] == out else r == -1
  {
    hide Walk, Height, Weight;
    var node: nat := root;
    var bitPos: nat := 0;
    var out: nat := 0;
    ghost var top, bs := trees[root], BytesToBits(bits[..])[..nBits];
    ghost var all := Walk(top, top, bs);
    assert bs[0..] == bs;
    while bitPos < nBits
      invariant bitPos <= nBits && node < |trees| && out <= maxOut
      invariant bits[..] == old(bits[..])
      invariant Reading(all, dst[..out], top, trees[node], bs[bitPos..])
    {
      assert NodeIs(t.nodes[..][node], trees, node) && NodeIs(t.nodes[..][root], trees, root);
      if t.nodes[node].left == -1 {
        EmitLeaf(all, dst[..out], top, trees[node], bs[bitPos..]);
        if out >= maxOut {
          return -1;
        }
        dst[out] := t.nodes[node].symbol;
        out := out + 1;
        node := root;
      }
      FollowBit(all, dst[..out], top, trees[node], bs[bitPos..]);
      var b := BitOf(bits[bitPos / 8], bitPos % 8);
      assert bs[bitPos..][0] == b && bs[bitPos..][1..] == bs[bitPos + 1..];
      assert NodeIs(t.nodes[..][node], trees, node);
      node := if b == 1 then t.nodes[node].right else t.nodes[node].left;
      bitPos := bitPos + 1;
    }
    assert bs[nBits..] == [];
    BitsUsedUp(all, dst[..out], top, trees[node]);
    assert NodeIs(t.nodes[..][node], trees, node);
    if t.nodes[node].left == -1 {
      if out >= maxOut {
        return -1;
      }
      dst[out] := t.nodes[node].symbol;
      out := out + 1;
    }
    r := out;
  }

  /** Number of symbols read into dst, or -1 when they do not fit. */
  method Decode(t: HeapPool, root: nat, bits: array<byte>, nBits: nat, dst: array<byte>, maxOut: nat,
                ghost trees: seq<Tree>) returns (r: int)
    requires t.nodes.Length == MAX_NODES && Represents(t.nodes[..], trees) && root < |trees|
    requires bits != dst && nBits <= 8 * bits.Length && maxOut <= dst.Length
    modifies dst
    ensures trees[root].Node? ==>
              var out := Walk(trees[root], trees[root], BytesToBits(bits[..])[..nBits]);
              if |out| <= maxOut then r == |out| && dst[..r] == out else r == -1
    ensures trees[root].Leaf? ==>
              && r == (if nBits <= maxOut then nBits else maxOut)
              && forall k | 0 <= k < r :: dst[k] == trees[root].symbol
  {
    assert NodeIs(t.nodes[..][root], trees, root);
    if t.nodes[root].left == -1 {
      r := DecodeSingle(t.nodes[root].symbol, nBits, dst, maxOut);
    } else {
      r := DecodeTree(t, root, bits, nBits, dst, maxOut, trees);
    }
  }
}
