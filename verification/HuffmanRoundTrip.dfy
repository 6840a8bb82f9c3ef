/** The whole of huffman.c on one message: count, build, assign, encode, decode. */
module HuffmanRoundTrip {
  import opened Bits
  import opened HuffmanCost
  import opened HuffmanTree
  import opened HuffmanHeap
  import opened HuffmanForest
  import opened HuffmanBuild
  import opened HuffmanCodec

  /** freq[s] is the number of times s occurs in msg. */
  ghost predicate Counts(freq: seq<nat>, msg: seq<byte>) {
    |freq| == MAX_SYMBOLS && forall s: byte :: freq[s] == multiset(msg)[s]
  }

  method CountSymbols(msg: seq<byte>) returns (freq: seq<uint32>)
    requires |msg| < WORD
    ensures Counts(freq, msg)
  {
    var table := new uint32[MAX_SYMBOLS](_ => 0);
    for i := 0 to |msg|
      invariant forall s: byte :: table[s] == multiset(msg[..i])[s]
    {
      assert msg[..i + 1] == msg[..i] + [msg[i]];
      OccursAtMost(msg[..i], msg[i]);
      table[msg[i]] := table[msg[i]] + 1;
    }
    assert msg[..|msg|] == msg;
    freq := table[..];
  }

  lemma OccursAtMost(msg: seq<byte>, s: byte)
    ensures multiset(msg)[s] <= |msg|
  {
    assert |multiset(msg)| == |msg|;
    var rest := multiset(msg)[s := 0];
    assert |rest| == |multiset(msg)| - multiset(msg)[s];
  }

  /* ---- Lengths of encoded messages ---- */

  lemma {:induction false} OneMoreOccurrence(freq: seq<nat>, lens: seq<nat>, k: nat)
    requires |freq| == |lens| && k < |freq|
    ensures TotalBits(freq[k := freq[k] + 1], lens) == TotalBits(freq, lens) + lens[k]
    ensures Sum(freq[k := freq[k] + 1]) == Sum(freq) + 1
  {
    if k == 0 {
      TimesSum(freq[0], 1, lens[0]);
      TimesIsProduct(1, lens[0]);
      assert freq[0 := freq[0] + 1][1..] == freq[1..];
    } else {
      assert freq[k := freq[k] + 1][1..] == freq[1..][k - 1 := freq[k] + 1];
      OneMoreOccurrence(freq[1..], lens[1..], k - 1);
    }
  }

  lemma {:induction false} NoOccurrences(freq: seq<nat>, lens: seq<nat>)
    requires |freq| == |lens| && forall k | 0 <= k < |freq| :: freq[k] == 0
    ensures TotalBits(freq, lens) == 0 && Sum(freq) == 0 && CountUsed(freq) == 0
  {
    if freq != [] {
      NoWeight(lens[0]);
      NoOccurrences(freq[1..], lens[1..]);
    }
  }

  function CodeLengths(codes: seq<HCode>): (r: seq<nat>)
    ensures |r| == |codes|
  {
    seq(|codes|, k requires 0 <= k < |codes| => codes[k].length)
  }

  /** An encoded message is as long as its symbol counts say. */
  lemma {:induction false} EncodedLength(freq: seq<nat>, codes: seq<HCode>, msg: seq<byte>)
    requires |codes| == MAX_SYMBOLS && Counts(freq, msg)
    ensures |Encoded(codes, msg)| == TotalBits(freq, CodeLengths(codes))
    ensures Sum(freq) == |msg|
    decreases |msg|
  {
    if msg == [] {
      NoOccurrences(freq, CodeLengths(codes));
    } else {
      var front, s := msg[..|msg| - 1], msg[|msg| - 1];
      assert msg == front + [s];
      var less := freq[s := freq[s] - 1];
      assert freq == less[s := less[s] + 1];
      EncodedLength(less, codes, front);
      OneMoreOccurrence(less, CodeLengths(codes), s);
    }
  }

  /* ---- Optimality ---- */

  /** The codes spell the words of the tree. */
  ghost predicate CodesOf(t: Tree, codes: seq<HCode>) {
    && |codes| == MAX_SYMBOLS
    && forall s: byte :: if s in Symbols(t) then IsCode(codes[s], Path(t, s)) else codes[s] == HCode(0, 0)
  }

  lemma CodesBits(t: Tree, freq: seq<nat>, codes: seq<HCode>)
    requires CodeTree(t, freq) && CodesOf(t, codes) && t.Node?
    ensures TotalBits(freq, CodeLengths(codes)) == MergeCost(t)
  {
    forall s: byte | s in Symbols(t)
      ensures CodeLengths(codes)[s] == |Path(t, s)|
    {
      PathNotEmpty(t, s);
    }
    TreeCodeBits(t, freq, CodeLengths(codes));
  }

  lemma PathNotEmpty(t: Tree, s: byte)
    requires t.Node? && s in Symbols(t)
    ensures |Path(t, s)| > 0
  {
  }

  /** No prefix-free code writes the counted symbols in fewer bits than the assigned one. */
  lemma Optimal(t: Tree, freq: seq<nat>, codes: seq<HCode>, other: seq<seq<bit>>)
    requires CodeTree(t, freq) && CodesOf(t, codes) && t.Node? && Sum(freq) < WORD
    requires |other| == MAX_SYMBOLS && PrefixCode(freq, other)
    ensures TotalBits(freq, CodeLengths(codes)) <= TotalBits(freq, Lengths(other))
  {
    CodesBits(t, freq, codes);
    TreeUses(t, freq);
    PrefixCodeLowerBound(freq, other);
  }

  lemma SomeSymbol(t: Tree) returns (s: byte)
    ensures s in Symbols(t)
  {
    match t
    case Leaf(x, _) => s := x;
    case Node(l, _) => s := SomeSymbol(l);
  }

  lemma {:induction false} UsedSomewhere(freq: seq<nat>, k: nat)
    requires k < |freq| && freq[k] > 0
    ensures CountUsed(freq) > 0
  {
    if k > 0 {
      UsedSomewhere(freq[1..], k - 1);
    }
  }

  lemma TreeUses(t: Tree, freq: seq<nat>)
    requires SymbolsUsed(t, freq)
    ensures CountUsed(freq) > 0
  {
    var s := SomeSymbol(t);
    UsedSomewhere(freq, s);
  }

  /* ---- The code of eight bits for every byte ---- */

  function ByteWords(): (r: seq<seq<bit>>)
    ensures |r| == MAX_SYMBOLS
  {
    seq(MAX_SYMBOLS, k requires 0 <= k < MAX_SYMBOLS => LowBits(k, 8))
  }

  lemma ByteWordsPrefixFree(freq: seq<nat>)
    requires |freq| == MAX_SYMBOLS
    ensures PrefixCode(freq, ByteWords())
  {
    forall i, j | 0 <= i < j < MAX_SYMBOLS
      ensures !Comparable(ByteWords()[i], ByteWords()[j])
    {
      ByteValue(i);
      ByteValue(j);
      assert LowBits(i, 8) != LowBits(j, 8);
    }
  }

  lemma {:induction false} UniformBits(freq: seq<nat>, lens: seq<nat>, n: nat)
    requires |freq| == |lens| && forall k | 0 <= k < |lens| :: lens[k] == n
    ensures TotalBits(freq, lens) == Times(Sum(freq), n)
  {
    if freq != [] {
      UniformBits(freq[1..], lens[1..], n);
      TimesSum(freq[0], Sum(freq[1..]), n);
    } else {
      NoWeight(n);
    }
  }

  /** An optimal code needs at most eight bits a symbol. */
  lemma AtMostEightBits(t: Tree, freq: seq<nat>, codes: seq<HCode>)
    requires CodeTree(t, freq) && CodesOf(t, codes) && t.Node? && Sum(freq) < WORD
    ensures TotalBits(freq, CodeLengths(codes)) <= 8 * Sum(freq)
  {
    ByteWordsPrefixFree(freq);
    Optimal(t, freq, codes, ByteWords());
    UniformBits(freq, Lengths(ByteWords()), 8);
    TimesIsProduct(Sum(freq), 8);
  }

  /* ---- The composition ---- */

  lemma SingleSymbol(msg: seq<byte>, freq: seq<nat>, s: byte, w: nat)
    requires Counts(freq, msg) && SymbolsUsed(Leaf(s, w), freq)
    ensures forall k | 0 <= k < |msg| :: msg[k] == s
  {
    forall k | 0 <= k < |msg| ensures msg[k] == s {
      assert freq[msg[k]] > 0;
      assert Symbols(Leaf(s, w))[msg[k]] == 1;
    }
  }

  lemma MessageSymbols(t: Tree, freq: seq<nat>, msg: seq<byte>)
    requires Counts(freq, msg) && SymbolsUsed(t, freq)
    ensures forall k | 0 <= k < |msg| :: msg[k] in Symbols(t)
  {
    forall k | 0 <= k < |msg| ensures msg[k] in Symbols(t) {
      assert freq[msg[k]] > 0;
      assert Symbols(t)[msg[k]] == 1;
    }
  }

  lemma {:induction false} SingleLength(codes: seq<HCode>, msg: seq<byte>)
    requires |codes| == MAX_SYMBOLS && forall k | 0 <= k < |msg| :: codes[msg[k]].length == 1
    ensures |Encoded(codes, msg)| == |msg|
  {
    if msg != [] {
      SingleLength(codes, msg[..|msg| - 1]);
    }
  }

  /** Codes of at most 32 bits. */
  method MakeCodes(t: HeapPool, root: nat, freq: seq<uint32>, ghost trees: seq<Tree>) returns (codes: seq<HCode>)
    requires t.Valid() && Represents(t.nodes[..], trees) && root < |trees|
    requires CodeTree(trees[root], freq) && Height(trees[root]) <= 32
    ensures CodesOf(trees[root], codes)
  {
    var table := new HCode[MAX_SYMBOLS](_ => HCode(0, 0));
    AssignCodes(t, root, 0, 0, table, trees, []);
    codes := table[..];
    forall s: byte
      ensures if s in Symbols(trees[root]) then IsCode(codes[s], Path(trees[root], s)) else codes[s] == HCode(0, 0)
    {
      if s in Symbols(trees[root]) {
        assert [] + Path(trees[root], s) == Path(trees[root], s);
      }
    }
  }

  lemma CountsSum(freq: seq<nat>, msg: seq<byte>)
    requires Counts(freq, msg)
    ensures Sum(freq) == |msg|
    ensures CountUsed(freq) == 0 <==> msg == []
  {
    EncodedLength(freq, seq(MAX_SYMBOLS, _ => HCode(0, 0)), msg);
    if msg == [] {
      NoOccurrences(freq, freq);
    } else {
      assert freq[msg[0]] > 0;
      UsedSomewhere(freq, msg[0]);
    }
  }

  lemma CodedSymbols(t: Tree, freq: seq<nat>, codes: seq<HCode>, msg: seq<byte>)
    requires SymbolsUsed(t, freq) && CodesOf(t, codes) && Counts(freq, msg)
    ensures forall k | 0 <= k < |msg| :: msg[k] in Symbols(t) && IsCode(codes[msg[k]], Path(t, msg[k]))
    ensures forall k | 0 <= k < |msg| :: codes[msg[k]].length > 0
  {
    MessageSymbols(t, freq, msg);
    forall k | 0 <= k < |msg| ensures IsCode(codes[msg[k]], Path(t, msg[k])) && codes[msg[k]].length > 0 {
    }
  }

  /** Up to 512 bytes always fit the bit buffer. */
  lemma MessageFits(t: Tree, freq: seq<nat>, codes: seq<HCode>, msg: seq<byte>)
    requires CodeTree(t, freq) && CodesOf(t, codes) && Counts(freq, msg) && |msg| < WORD
    ensures |msg| <= 512 ==> Encodable(codes, msg)
    ensures t.Leaf? ==> |Encoded(codes, msg)| == |msg|
  {
    CodedSymbols(t, freq, codes, msg);
    EncodedLength(freq, codes, msg);
    if t.Leaf? {
      SingleLength(codes, msg);
    } else {
      AtMostEightBits(t, freq, codes);
    }
  }

  /** What the reader makes of the written bits. */
  lemma ReadsBack(t: Tree, freq: seq<nat>, codes: seq<HCode>, msg: seq<byte>)
    requires SymbolsUsed(t, freq) && CodesOf(t, codes) && Counts(freq, msg)
    ensures t.Node? ==> Walk(t, t, Encoded(codes, msg)) == msg
    ensures t.Leaf? ==> forall k | 0 <= k < |msg| :: msg[k] == t.symbol
  {
    if t.Node? {
      CodedSymbols(t, freq, codes, msg);
      WalkWords(t, codes, msg, []);
      assert Encoded(codes, msg) + [] == Encoded(codes, msg) && msg + [] == msg;
    } else {
      SingleSymbol(msg, freq, t.symbol, t.weight);
    }
  }

  ghost function CountTable(msg: seq<byte>): (r: seq<nat>)
    ensures Counts(r, msg)
  {
    seq(MAX_SYMBOLS, k requires 0 <= k < MAX_SYMBOLS => multiset(msg)[k])
  }

  /** bits is the least any prefix-free code needs for msg; one bit a byte if all are equal. */
  ghost predicate FewestBits(bits: nat, msg: seq<byte>) {
    var freq := CountTable(msg);
    if CountUsed(freq) >= 2 then
      forall other: seq<seq<bit>> | |other| == MAX_SYMBOLS && PrefixCode(freq, other) ::
        bits <= TotalBits(freq, Lengths(other))
    else bits == |msg|
  }

  lemma BitsAreFewest(t: Tree, freq: seq<nat>, codes: seq<HCode>, msg: seq<byte>)
    requires CodeTree(t, freq) && CodesOf(t, codes) && Counts(freq, msg) && |msg| < WORD
    ensures FewestBits(|Encoded(codes, msg)|, msg)
  {
    assert CountTable(msg) == freq;
    EncodedLength(freq, codes, msg);
    if t.Leaf? {
      MessageFits(t, freq, codes, msg);
      OneUsed(t.symbol, t.weight, freq);
    } else {
      TwoUsed(t, freq);
      forall other: seq<seq<bit>> | |other| == MAX_SYMBOLS && PrefixCode(freq, other)
        ensures |Encoded(codes, msg)| <= TotalBits(freq, Lengths(other))
      {
        Optimal(t, freq, codes, other);
      }
    }
  }

  lemma OneUsed(s: byte, w: nat, freq: seq<nat>)
    requires SymbolsUsed(Leaf(s, w), freq)
    ensures CountUsed(freq) == 1
  {
    forall k | 0 <= k < 256 && k != s ensures freq[k] == 0 {
      var x: byte := k;
      assert Symbols(Leaf(s, w))[x] == 0;
    }
    assert Symbols(Leaf(s, w))[s] == 1;
    OnlyUsed(freq, s);
  }

  lemma {:induction false} OnlyUsed(freq: seq<nat>, s: nat)
    requires s < |freq| && forall k | 0 <= k < |freq| :: freq[k] > 0 <==> k == s
    ensures CountUsed(freq) == 1
  {
    if s == 0 {
      NoOccurrences(freq[1..], freq[1..]);
    } else {
      OnlyUsed(freq[1..], s - 1);
    }
  }

  lemma TwoUsed(t: Tree, freq: seq<nat>)
    requires SymbolsUsed(t, freq) && t.Node?
    ensures CountUsed(freq) >= 2
  {
    var a := SomeSymbol(t.left);
    var b := SomeSymbol(t.right);
    assert Symbols(t)[a] == 1 && Symbols(t)[b] == 1;
    TwoUsedAt(freq, if a < b then a else b, if a < b then b else a);
  }

  lemma {:induction false} TwoUsedAt(freq: seq<nat>, a: nat, b: nat)
    requires a < b < |freq| && freq[a] > 0 && freq[b] > 0
    ensures CountUsed(freq) >= 2
  {
    if a == 0 {
      UsedSomewhere(freq[1..], b - 1);
    } else {
      TwoUsedAt(freq[1..], a - 1, b - 1);
    }
  }

  /** Number of symbols decoded from the encoding of msg. */
  method DecodeMessage(t: HeapPool, root: nat, bitbuf: array<byte>, bitCount: nat, dec: array<byte>,
                       ghost codes: seq<HCode>, ghost msg: seq<byte>, ghost freq: seq<nat>, ghost trees: seq<Tree>)
    returns (n: int)
    requires t.Valid() && Represents(t.nodes[..], trees) && root < |trees|
    requires SymbolsUsed(trees[root], freq) && CodesOf(trees[root], codes) && Counts(freq, msg)
    requires bitCount == |Encoded(codes, msg)| && Written(bitbuf[..], Encoded(codes, msg))
    requires trees[root].Leaf? ==> bitCount == |msg|
    requires bitbuf != dec && dec.Length == 512
    modifies dec
    ensures n == |msg| <==> |msg| <= 512
    ensures n == |msg| ==> dec[..n] == msg
  {
    n := Decode(t, root, bitbuf, bitCount, dec, 512, trees);
    ReadsBack(trees[root], freq, codes, msg);
  }

  datatype Outcome = NoTree | EncodeFailed | WrongCount | WrongByte(at: int) | Pass(bits: nat)

  /** Encoding and decoding msg succeeds exactly when it has 1 to 512 bytes: the optimal code
      of so few bytes always fits the 4096-bit buffer. */
  method RoundTrip(msg: seq<byte>) returns (r: Outcome)
    requires |msg| <= 9227464
    ensures r.Pass? <==> 1 <= |msg| <= 512
    ensures r.Pass? ==> FewestBits(r.bits, msg)
  {
    hide FewestBits, Encodable, CodeTree, CodesOf, SymbolsUsed, Counts, Written, Encoded;
    var freq := CountSymbols(msg);
    var t := new HeapPool();
    var root, trees := BuildTree(t, freq);
    CountsSum(freq, msg);
    if root == -1 {
      return NoTree;
    }
    DepthBound(trees[root]);
    var codes := MakeCodes(t, root, freq, trees);
    var bitbuf := new byte[MAX_BITS / 8](_ => 0);
    var bitCount := Encode(codes, msg, bitbuf);
    MessageFits(trees[root], freq, codes, msg);
    if bitCount < 0 {
      return EncodeFailed;
    }
    var dec := new byte[512](_ => 0);
    var n := DecodeMessage(t, root, bitbuf, bitCount, dec, codes, msg, freq, trees);
    if n != |msg| {
      return WrongCount;
    }
    for i := 0 to n {
      if dec[i] != msg[i] {
        return WrongByte(i);
      }
    }
    BitsAreFewest(trees[root], freq, codes, msg);
    r := Pass(bitCount);
  }
}
