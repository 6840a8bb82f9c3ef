/** Code trees: the code words they give, what they cost, how deep they get, and
    the forests that the tree builder keeps in its heap. */
module HuffmanTree {
  import opened Bits
  import opened HuffmanCost

  datatype Tree = Leaf(symbol: byte, weight: nat) | Node(left: Tree, right: Tree)

  function Weight(t: Tree): nat {
    match t
    case Leaf(_, w) => w
    case Node(l, r) => Weight(l) + Weight(r)
  }

  /** Sum of the weights of all inner nodes. */
  function MergeCost(t: Tree): nat {
    match t
    case Leaf(_, _) => 0
    case Node(l, r) => Weight(l) + Weight(r) + MergeCost(l) + MergeCost(r)
  }

  function Symbols(t: Tree): multiset<byte> {
    match t
    case Leaf(s, _) => multiset{s}
    case Node(l, r) => Symbols(l) + Symbols(r)
  }

  function Height(t: Tree): nat {
    match t
    case Leaf(_, _) => 0
    case Node(l, r) => 1 + if Height(l) >= Height(r) then Height(l) else Height(r)
  }

  ghost predicate Distinct(t: Tree) {
    forall s: byte :: Symbols(t)[s] <= 1
  }

  /** The branches taken from the root to the leaf of s: 0 for left, 1 for right. */
  function Path(t: Tree, s: byte): (p: seq<bit>)
    requires s in Symbols(t)
    ensures |p| <= Height(t)
  {
    match t
    case Leaf(_, _) => []
    case Node(l, r) => if s in Symbols(l) then [0] + Path(l, s) else [1] + Path(r, s)
  }

  /** The code word of s: its path, or a single 0 when the tree is one leaf. */
  function Word(t: Tree, s: byte): seq<bit>
    requires s in Symbols(t)
  {
    if t.Leaf? then [0] else Path(t, s)
  }

  lemma ChildrenDistinct(t: Tree)
    requires t.Node? && Distinct(t)
    ensures Distinct(t.left) && Distinct(t.right)
    ensures forall s: byte | s in Symbols(t.left) :: s !in Symbols(t.right)
  {
    forall s: byte
      ensures Symbols(t.left)[s] + Symbols(t.right)[s] <= 1
    {
      assert Symbols(t)[s] <= 1;
    }
  }

  /* ---- Cost of a tree in code bits ---- */

  /** freq[s] > 0 marks the used symbols. */
  function UsedEntries(freq: seq<nat>, lens: seq<nat>): seq<Entry>
    requires |freq| == |lens|
  {
    if freq == [] then []
    else if freq[0] > 0 then [Entry(freq[0], lens[0])] + UsedEntries(freq[1..], lens[1..])
    else UsedEntries(freq[1..], lens[1..])
  }

  function UsedWords(freq: seq<nat>, code: seq<seq<bit>>): seq<seq<bit>>
    requires |freq| == |code|
  {
    if freq == [] then []
    else if freq[0] > 0 then [code[0]] + UsedWords(freq[1..], code[1..])
    else UsedWords(freq[1..], code[1..])
  }

  function UsedWeights(freq: seq<nat>): multiset<nat> {
    if freq == [] then multiset{}
    else (if freq[0] > 0 then multiset{freq[0]} else multiset{}) + UsedWeights(freq[1..])
  }

  function Sum(freq: seq<nat>): nat {
    if freq == [] then 0 else freq[0] + Sum(freq[1..])
  }

  function CountUsed(freq: seq<nat>): nat {
    if freq == [] then 0 else (if freq[0] > 0 then 1 else 0) + CountUsed(freq[1..])
  }

  /** Bits needed to write every symbol s freq[s] times with lens[s] bits each. */
  function TotalBits(freq: seq<nat>, lens: seq<nat>): nat
    requires |freq| == |lens|
  {
    if freq == [] then 0 else Times(freq[0], lens[0]) + TotalBits(freq[1..], lens[1..])
  }

  function Lengths(code: seq<seq<bit>>): (r: seq<nat>)
    ensures |r| == |code|
  {
    seq(|code|, k requires 0 <= k < |code| => |code[k]|)
  }

  /** No used code word is a prefix of another used one. */
  ghost predicate PrefixCode(freq: seq<nat>, code: seq<seq<bit>>)
    requires |freq| == |code|
  {
    forall i, j | 0 <= i < j < |freq| && freq[i] > 0 && freq[j] > 0 :: !Comparable(code[i], code[j])
  }

  lemma {:induction false} UsedWordOf(freq: seq<nat>, code: seq<seq<bit>>, c: seq<bit>) returns (k: nat)
    requires |freq| == |code| && c in UsedWords(freq, code)
    ensures k < |freq| && freq[k] > 0 && code[k] == c
  {
    if freq[0] > 0 && code[0] == c {
      k := 0;
    } else {
      k := UsedWordOf(freq[1..], code[1..], c);
      k := k + 1;
    }
  }

  lemma {:induction false} UsedPrefixFree(freq: seq<nat>, code: seq<seq<bit>>)
    requires |freq| == |code| && PrefixCode(freq, code)
    ensures PrefixFree(UsedWords(freq, code))
  {
    if freq != [] {
      var rest := UsedWords(freq[1..], code[1..]);
      forall i, j | 0 <= i < j < |freq[1..]| && freq[1..][i] > 0 && freq[1..][j] > 0
        ensures !Comparable(code[1..][i], code[1..][j])
      {
        assert !Comparable(code[i + 1], code[j + 1]);
      }
      UsedPrefixFree(freq[1..], code[1..]);
      if freq[0] > 0 {
        forall c | c in rest ensures !Comparable(code[0], c) {
          var k := UsedWordOf(freq[1..], code[1..], c);
          assert !Comparable(code[0], code[k + 1]);
        }
        assert UsedWords(freq, code)[1..] == rest;
      }
    }
  }

  lemma {:induction false} UsedKraft(freq: seq<nat>, code: seq<seq<bit>>, d: nat)
    requires |freq| == |code| && Short(UsedWords(freq, code), d)
    ensures Within(UsedEntries(freq, Lengths(code)), d)
    ensures Kraft(UsedEntries(freq, Lengths(code)), d) == KraftOfCode(UsedWords(freq, code), d)
  {
    hide Pow2;
    if freq != [] {
      assert Lengths(code)[1..] == Lengths(code[1..]);
      var rest := UsedWords(freq[1..], code[1..]);
      if freq[0] > 0 {
        assert UsedWords(freq, code) == [code[0]] + rest;
        assert UsedWords(freq, code)[1..] == rest;
        assert forall c | c in rest :: c in UsedWords(freq, code);
        UsedKraft(freq[1..], code[1..], d);
        var es := UsedEntries(freq[1..], Lengths(code[1..]));
        assert UsedEntries(freq, Lengths(code)) == [Entry(freq[0], |code[0]|)] + es;
        assert code[0] in UsedWords(freq, code);
        Prepend(Entry(freq[0], |code[0]|), es, d);
      } else {
        UsedKraft(freq[1..], code[1..], d);
      }
    }
  }

  lemma {:induction false} UsedCost(freq: seq<nat>, lens: seq<nat>)
    requires |freq| == |lens|
    ensures Cost(UsedEntries(freq, lens)) == TotalBits(freq, lens)
    ensures Weights(UsedEntries(freq, lens)) == UsedWeights(freq)
    ensures |UsedEntries(freq, lens)| == CountUsed(freq) == |UsedWeights(freq)|
  {
    if freq != [] {
      UsedCost(freq[1..], lens[1..]);
      if freq[0] > 0 {
        assert UsedEntries(freq, lens)[1..] == UsedEntries(freq[1..], lens[1..]);
      } else {
        NoWeight(lens[0]);
      }
    }
  }

  lemma {:induction false} NoWeight(n: nat)
    ensures Times(0, n) == 0
  {
    if n > 0 {
      NoWeight(n - 1);
    }
  }

  lemma {:induction false} LongestWord(cs: seq<seq<bit>>) returns (d: nat)
    ensures Short(cs, d)
  {
    if cs == [] {
      d := 0;
    } else {
      d := LongestWord(cs[1..]);
      d := if d < |cs[0]| then |cs[0]| else d;
    }
  }

  /** Every prefix-free code needs at least the cost of greedy merging. */
  lemma PrefixCodeLowerBound(freq: seq<nat>, code: seq<seq<bit>>)
    requires |freq| == |code| && CountUsed(freq) > 0 && PrefixCode(freq, code)
    ensures TotalBits(freq, Lengths(code)) >= GreedyCost(UsedWeights(freq))
  {
    var words := UsedWords(freq, code);
    var d := LongestWord(words);
    UsedPrefixFree(freq, code);
    PrefixFreeKraft(words, d);
    UsedKraft(freq, code, d);
    UsedCost(freq, Lengths(code));
    KraftLowerBound(UsedEntries(freq, Lengths(code)), d);
  }

  /** The leaf of every symbol of t carries that symbol's frequency. */
  ghost predicate LeavesMatch(t: Tree, freq: seq<nat>) {
    match t
    case Leaf(s, w) => s < |freq| && freq[s] == w
    case Node(l, r) => LeavesMatch(l, freq) && LeavesMatch(r, freq)
  }

  /** TotalBits over the first k symbols, counting only those in part. */
  function PartBits(part: multiset<byte>, freq: seq<nat>, lens: seq<nat>, k: nat): nat
    requires k <= |freq| == |lens| && |freq| <= 256
  {
    if k == 0 then 0
    else (if k - 1 in part then Times(freq[k - 1], lens[k - 1]) else 0) + PartBits(part, freq, lens, k - 1)
  }

  lemma {:induction false} PartBitsOne(s: byte, freq: seq<nat>, lens: seq<nat>, k: nat)
    requires k <= |freq| == |lens| && |freq| <= 256
    ensures PartBits(multiset{s}, freq, lens, k) == if s < k then Times(freq[s], lens[s]) else 0
  {
    if k > 0 {
      PartBitsOne(s, freq, lens, k - 1);
    }
  }

  lemma {:induction false} PartBitsUnion(p: multiset<byte>, q: multiset<byte>, freq: seq<nat>, lens: seq<nat>, k: nat)
    requires k <= |freq| == |lens| && |freq| <= 256
    requires forall s: byte | s in p :: s !in q
    ensures PartBits(p + q, freq, lens, k) == PartBits(p, freq, lens, k) + PartBits(q, freq, lens, k)
  {
    if k > 0 {
      PartBitsUnion(p, q, freq, lens, k - 1);
    }
  }

  ghost predicate LensMatch(t: Tree, depth: nat, lens: seq<nat>) {
    forall s: byte | s in Symbols(t) :: s < |lens| && lens[s] == depth + |Path(t, s)|
  }

  lemma ChildLens(t: Tree, depth: nat, lens: seq<nat>)
    requires t.Node? && Distinct(t) && LensMatch(t, depth, lens)
    ensures LensMatch(t.left, depth + 1, lens) && LensMatch(t.right, depth + 1, lens)
  {
    ChildrenDistinct(t);
    forall s: byte | s in Symbols(t.left)
      ensures s < |lens| && lens[s] == depth + 1 + |Path(t.left, s)|
    {
      assert s in Symbols(t);
    }
    forall s: byte | s in Symbols(t.right)
      ensures s < |lens| && lens[s] == depth + 1 + |Path(t.right, s)|
    {
      assert s in Symbols(t);
    }
  }

  /** The inner-node weights of a tree add up to its weighted path lengths. */
  lemma {:induction false} TreeBits(t: Tree, depth: nat, freq: seq<nat>, lens: seq<nat>)
    requires |freq| == |lens| && |freq| <= 256
    requires LeavesMatch(t, freq) && Distinct(t) && LensMatch(t, depth, lens)
    ensures PartBits(Symbols(t), freq, lens, |freq|) == MergeCost(t) + Times(Weight(t), depth)
  {
    if t.Leaf? {
      assert t.symbol in Symbols(t);
      PartBitsOne(t.symbol, freq, lens, |freq|);
    } else {
      ChildrenDistinct(t);
      ChildLens(t, depth, lens);
      TreeBits(t.left, depth + 1, freq, lens);
      TreeBits(t.right, depth + 1, freq, lens);
      TreeBitsNode(t, depth, freq, lens);
    }
  }

  lemma TreeBitsNode(t: Tree, depth: nat, freq: seq<nat>, lens: seq<nat>)
    requires |freq| == |lens| && |freq| <= 256
    requires t.Node? && forall s: byte | s in Symbols(t.left) :: s !in Symbols(t.right)
    requires PartBits(Symbols(t.left), freq, lens, |freq|) == MergeCost(t.left) + Times(Weight(t.left), depth + 1)
    requires PartBits(Symbols(t.right), freq, lens, |freq|) == MergeCost(t.right) + Times(Weight(t.right), depth + 1)
    ensures PartBits(Symbols(t), freq, lens, |freq|) == MergeCost(t) + Times(Weight(t), depth)
  {
    PartBitsUnion(Symbols(t.left), Symbols(t.right), freq, lens, |freq|);
    OneLevelDown(Weight(t.left), Weight(t.right), depth);
  }

  lemma OneLevelDown(a: nat, b: nat, depth: nat)
    ensures Times(a, depth + 1) + Times(b, depth + 1) == a + b + Times(a + b, depth)
  {
    TimesSum(a, b, depth);
  }

  /** Symbols of t are exactly the used ones, once each. */
  ghost predicate SymbolsUsed(t: Tree, freq: seq<nat>) {
    && |freq| == 256
    && forall s: byte :: Symbols(t)[s] == if freq[s] > 0 then 1 else 0
  }

  lemma {:induction false} PartBitsUsed(part: multiset<byte>, freq: seq<nat>, lens: seq<nat>, k: nat)
    requires k <= |freq| == |lens| && |freq| <= 256
    requires forall s: byte | s < k :: s in part <==> freq[s] > 0
    ensures PartBits(part, freq, lens, k) == TotalBits(freq[..k], lens[..k])
  {
    if k == 0 {
      assert freq[..0] == [];
    } else {
      PartBitsUsed(part, freq, lens, k - 1);
      NoWeight(lens[k - 1]);
      TotalBitsSnoc(freq[..k - 1], lens[..k - 1], freq[k - 1], lens[k - 1]);
      assert freq[..k] == freq[..k - 1] + [freq[k - 1]];
      assert lens[..k] == lens[..k - 1] + [lens[k - 1]];
      var s: byte := k - 1;
      assert s in part <==> freq[s] > 0;
    }
  }

  lemma {:induction false} TotalBitsSnoc(freq: seq<nat>, lens: seq<nat>, f: nat, n: nat)
    requires |freq| == |lens|
    ensures TotalBits(freq + [f], lens + [n]) == TotalBits(freq, lens) + Times(f, n)
  {
    if freq != [] {
      assert (freq + [f])[1..] == freq[1..] + [f] && (lens + [n])[1..] == lens[1..] + [n];
      TotalBitsSnoc(freq[1..], lens[1..], f, n);
    }
  }

  /** Bits of the whole code given by a tree with at least two leaves. */
  lemma TreeCodeBits(t: Tree, freq: seq<nat>, lens: seq<nat>)
    requires SymbolsUsed(t, freq) && LeavesMatch(t, freq) && |lens| == 256
    requires LensMatch(t, 0, lens)
    ensures TotalBits(freq, lens) == MergeCost(t)
  {
    assert Distinct(t);
    TreeBits(t, 0, freq, lens);
    PartBitsUsed(Symbols(t), freq, lens, 256);
    assert freq[..256] == freq && lens[..256] == lens;
  }

  /* ---- Depth ---- */

  function Fib(n: nat): nat {
    if n < 2 then n else Fib(n - 1) + Fib(n - 2)
  }

  /** Weight of the heavier child. */
  function HeavierChild(t: Tree): nat {
    match t
    case Leaf(_, _) => 0
    case Node(l, r) => if Weight(l) >= Weight(r) then Weight(l) else Weight(r)
  }

  /** Every node weighs at least as much as the children of its sibling. */
  ghost predicate Balanced(t: Tree) {
    match t
    case Leaf(_, w) => w >= 1
    case Node(l, r) =>
      Balanced(l) && Balanced(r) && HeavierChild(l) <= Weight(r) && HeavierChild(r) <= Weight(l)
  }

  lemma {:induction false} PositiveWeight(t: Tree)
    requires Balanced(t)
    ensures Weight(t) >= 1
  {
    if t.Node? {
      PositiveWeight(t.left);
    }
  }

  /** A leaf at depth d forces a weight of at least Fib(d + 2). */
  lemma {:induction false} DepthForcesWeight(t: Tree)
    requires Balanced(t)
    ensures Weight(t) >= Fib(Height(t) + 2)
    ensures t.Node? ==> HeavierChild(t) >= Fib(Height(t) + 1)
  {
    assert Fib(2) == 1;
    if t.Node? {
      PositiveWeight(t.left);
      PositiveWeight(t.right);
      DepthForcesWeight(t.left);
      DepthForcesWeight(t.right);
      if Height(t.left) >= Height(t.right) {
        DeeperChild(t.left, t.right);
      } else {
        DeeperChild(t.right, t.left);
      }
    }
  }

  lemma DeeperChild(deep: Tree, other: Tree)
    requires Weight(deep) >= Fib(Height(deep) + 2)
    requires deep.Node? ==> HeavierChild(deep) >= Fib(Height(deep) + 1)
    requires HeavierChild(deep) <= Weight(other) && Weight(other) >= 1
    ensures Weight(deep) + Weight(other) >= Fib(Height(deep) + 3)
  {
    var h := Height(deep);
    assert Fib(1) == 1;
    assert Fib(h + 3) == Fib(h + 2) + Fib(h + 1);
  }

  lemma {:induction false} FibMonotone(a: nat, b: nat)
    requires a <= b
    ensures Fib(a) <= Fib(b)
    decreases b
  {
    if a < b {
      FibMonotone(a, b - 1);
    }
  }

  lemma FibFrom35(n: nat, k: nat)
    requires n >= k == 35
    ensures Fib(n) >= 9227465
  {
    FibMonotone(k, n);
    Fib35();
  }

  lemma Fib35()
    ensures Fib(35) == 9227465
  {
    assert Fib(6) == 8 && Fib(7) == 13;
    assert Fib(12) == 144 && Fib(13) == 233 by { FibSix(6); FibSix(7); }
    assert Fib(18) == 2584 && Fib(19) == 4181 by { FibSix(12); FibSix(13); }
    assert Fib(24) == 46368 && Fib(25) == 75025 by { FibSix(18); FibSix(19); }
    assert Fib(30) == 832040 && Fib(31) == 1346269 by { FibSix(24); FibSix(25); }
    assert Fib(32) == Fib(31) + Fib(30);
    assert Fib(33) == Fib(32) + Fib(31);
    assert Fib(34) == Fib(33) + Fib(32);
    assert Fib(35) == Fib(34) + Fib(33);
  }

  lemma FibSix(n: nat)
    ensures Fib(n + 6) == 8 * Fib(n + 1) + 5 * Fib(n)
  {
    assert Fib(n + 2) == Fib(n + 1) + Fib(n);
    assert Fib(n + 3) == Fib(n + 2) + Fib(n + 1);
    assert Fib(n + 4) == Fib(n + 3) + Fib(n + 2);
    assert Fib(n + 5) == Fib(n + 4) + Fib(n + 3);
  }

  /** Up to this total no code is longer than 32 bits. */
  lemma DepthBound(t: Tree)
    requires Balanced(t) && Weight(t) <= 9227464
    ensures Height(t) <= 32
  {
    hide Fib, Height, Weight, Balanced;
    DepthForcesWeight(t);
    var h := Height(t);
    if h >= 33 {
      FibFrom35(h + 2, 35);
    }
  }
}
