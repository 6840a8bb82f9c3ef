/** build_tree: the code tree of a frequency table, and why it is optimal. */
module HuffmanBuild {
  import opened Bits
  import opened HuffmanCost
  import opened HuffmanTree
  import opened HuffmanHeap
  import opened HuffmanForest

  const WORD := 0x1_0000_0000

  function UsedUpTo(freq: seq<nat>, k: nat): multiset<byte>
    requires k <= |freq| <= 256
  {
    if k == 0 then multiset{}
    else UsedUpTo(freq, k - 1) + if freq[k - 1] > 0 then multiset{k - 1} else multiset{}
  }

  lemma {:induction false} UsedUpToCounts(freq: seq<nat>, k: nat, s: byte)
    requires k <= |freq| <= 256
    ensures UsedUpTo(freq, k)[s] == if s < k && freq[s] > 0 then 1 else 0
  {
    if k > 0 {
      UsedUpToCounts(freq, k - 1, s);
    }
  }

  lemma {:induction false} PrefixSnoc(freq: seq<nat>, f: nat)
    ensures UsedWeights(freq + [f]) == UsedWeights(freq) + (if f > 0 then multiset{f} else multiset{})
    ensures Sum(freq + [f]) == Sum(freq) + f
    ensures CountUsed(freq + [f]) == CountUsed(freq) + if f > 0 then 1 else 0
  {
    if freq == [] {
      assert [] + [f] == [f];
    } else {
      assert (freq + [f])[1..] == freq[1..] + [f];
      PrefixSnoc(freq[1..], f);
    }
  }

  lemma {:induction false} SumPrefix(freq: seq<nat>, k: nat)
    requires k <= |freq|
    ensures Sum(freq[..k]) <= Sum(freq)
    ensures CountUsed(freq[..k]) <= k
  {
    if k > 0 {
      assert freq[..k][1..] == freq[1..][..k - 1];
      SumPrefix(freq[1..], k - 1);
    }
  }

  /** A leaf for every used symbol below k, and nothing else. */
  ghost predicate LeavesOf(trees: seq<Tree>, f: multiset<nat>, freq: seq<nat>, k: nat)
    requires k <= |freq| <= 256
  {
    && InForest(trees, f) && |trees| == |f| == CountUsed(freq[..k])
    && (forall x | 0 <= x < |trees| :: trees[x].Leaf? && trees[x].weight > 0 && LeavesMatch(trees[x], freq))
    && var t := Total(trees, f);
       && t.cost == 0 && t.weights == UsedWeights(freq[..k])
       && t.symbols == UsedUpTo(freq, k) && t.sum == Sum(freq[..k])
  }

  lemma NoLeaves(freq: seq<nat>)
    requires |freq| <= 256
    ensures LeavesOf([], multiset{}, freq, 0)
  {
  }

  lemma SkipUnused(trees: seq<Tree>, f: multiset<nat>, freq: seq<nat>, k: nat)
    requires k < |freq| <= 256 && freq[k] == 0 && LeavesOf(trees, f, freq, k)
    ensures LeavesOf(trees, f, freq, k + 1)
  {
    assert freq[..k + 1] == freq[..k] + [freq[k]];
    PrefixSnoc(freq[..k], freq[k]);
  }

  lemma AddLeaf(trees: seq<Tree>, f: multiset<nat>, freq: seq<nat>, k: nat)
    requires k < |freq| <= 256 && freq[k] > 0 && LeavesOf(trees, f, freq, k)
    ensures LeavesOf(trees + [Leaf(k, freq[k])], f + multiset{|trees|}, freq, k + 1)
  {
    hide Sum, CountUsed, UsedWeights, Total, Symbols;
    assert freq[..k + 1] == freq[..k] + [freq[k]];
    PrefixSnoc(freq[..k], freq[k]);
    AddLeafTotals(trees, f, k, freq[k]);
  }

  lemma AddLeafTotals(trees: seq<Tree>, f: multiset<nat>, s: byte, w: nat)
    requires InForest(trees, f)
    ensures InForest(trees + [Leaf(s, w)], f + multiset{|trees|})
    ensures var t, u := Total(trees, f), Total(trees + [Leaf(s, w)], f + multiset{|trees|});
            && u.cost == t.cost && u.weights == t.weights + multiset{w}
            && u.symbols == t.symbols + multiset{s} && u.sum == t.sum + w
  {
    var leaf := Leaf(s, w);
    TotalMoreTrees(trees, leaf, f);
    TotalAdd(trees + [leaf], f, |trees|);
    PlusLeaf(Total(trees, f), s, w);
  }

  lemma PlusLeaf(t: Totals, s: byte, w: nat)
    ensures var u := Plus(TotalsOf(Leaf(s, w)), t);
            && u.cost == t.cost && u.weights == t.weights + multiset{w}
            && u.symbols == t.symbols + multiset{s} && u.sum == t.sum + w
  {
  }

  /** Progress of merging: what the forest f must still become. */
  ghost predicate Merging(trees: seq<Tree>, f: multiset<nat>, freq: seq<nat>)
    requires |freq| == 256
  {
    && InForest(trees, f) && |f| >= 1 && |trees| + |f| == 2 * CountUsed(freq)
    && (forall x | 0 <= x < |trees| :: LeavesMatch(trees[x], freq))
    && Total(trees, f).symbols == UsedUpTo(freq, 256) && Total(trees, f).sum == Sum(freq)
    && (Sum(freq) < WORD ==> MergingGreedily(trees, f, freq))
  }

  ghost predicate MergingGreedily(trees: seq<Tree>, f: multiset<nat>, freq: seq<nat>)
    requires InForest(trees, f)
  {
    && Total(trees, f).cost + GreedyCost(Total(trees, f).weights) == GreedyCost(UsedWeights(freq))
    && ForestBalanced(trees, f)
  }

  lemma StartMerging(trees: seq<Tree>, f: multiset<nat>, freq: seq<nat>)
    requires |freq| == 256 && LeavesOf(trees, f, freq, 256) && |f| > 0
    ensures Merging(trees, f, freq)
  {
    assert freq[..256] == freq;
    if Sum(freq) < WORD {
      LeavesBalanced(trees, f);
    }
  }

  lemma LeavesBalanced(trees: seq<Tree>, f: multiset<nat>)
    requires InForest(trees, f) && forall x | 0 <= x < |trees| :: trees[x].Leaf? && trees[x].weight > 0
    ensures ForestBalanced(trees, f)
  {
    forall x, y | x in f && y in f - multiset{x} ensures HeavierChild(trees[x]) <= Weight(trees[y]) {
      assert trees[x].Leaf?;
    }
  }

  /** The tree numbered a and then b, each of smallest key among those left. */
  ghost predicate TwoSmallest(ns: seq<HNode>, f: multiset<nat>, a: nat, b: nat) {
    SmallestKey(ns, f, a) && SmallestKey(ns, f - multiset{a}, b)
  }

  lemma KeysAreWeights(ns: seq<HNode>, trees: seq<Tree>, f: multiset<nat>, x: nat)
    requires Represents(ns, trees) && InForest(trees, f) && Total(trees, f).sum < WORD && x in f
    ensures ns[x].freq == Weight(trees[x])
  {
    WeightAtMostSum(trees, f, x);
    NodeKey(ns[x], trees, x);
  }

  lemma NodeKey(node: HNode, trees: seq<Tree>, x: nat)
    requires x < |trees| && NodeIs(node, trees, x) && Weight(trees[x]) < WORD
    ensures node.freq == Weight(trees[x])
  {
    var w := Weight(trees[x]);
    assert node.freq == w % WORD;
  }

  lemma SmallestAreLightest(ns: seq<HNode>, trees: seq<Tree>, f: multiset<nat>, a: nat, b: nat)
    requires Represents(ns, trees) && InForest(trees, f) && Total(trees, f).sum < WORD
    requires TwoSmallest(ns, f, a, b)
    ensures Lightest(trees, f, a) && Lightest(trees, f - multiset{a}, b)
  {
    KeysAreWeights(ns, trees, f, a);
    KeysAreWeights(ns, trees, f, b);
    forall x | x in f ensures Weight(trees[a]) <= Weight(trees[x]) {
      KeysAreWeights(ns, trees, f, x);
    }
    forall x | x in f - multiset{a} ensures Weight(trees[b]) <= Weight(trees[x]) {
      KeysAreWeights(ns, trees, f, x);
    }
  }

  lemma MergingStep(ns: seq<HNode>, trees: seq<Tree>, f: multiset<nat>, freq: seq<nat>, a: nat, b: nat)
    requires |freq| == 256 && Merging(trees, f, freq) && Represents(ns, trees) && TwoSmallest(ns, f, a, b)
    ensures Merging(trees + [Node(trees[a], trees[b])], Joined(f, a, b, |trees|), freq)
  {
    TotalJoined(trees, f, a, b);
    MatchKept(trees, freq, a, b);
    if Sum(freq) < WORD {
      SmallestAreLightest(ns, trees, f, a, b);
      GreedyKept(trees, f, freq, a, b);
    }
  }

  lemma GreedyKept(trees: seq<Tree>, f: multiset<nat>, freq: seq<nat>, a: nat, b: nat)
    requires InForest(trees, f) && MergingGreedily(trees, f, freq)
    requires Lightest(trees, f, a) && Lightest(trees, f - multiset{a}, b)
    ensures InForest(trees + [Node(trees[a], trees[b])], Joined(f, a, b, |trees|))
    ensures MergingGreedily(trees + [Node(trees[a], trees[b])], Joined(f, a, b, |trees|), freq)
  {
    TotalJoined(trees, f, a, b);
    JoinLightest(trees, f, a, b);
    JoinKeepsBalance(trees, f, a, b);
  }

  lemma MatchKept(trees: seq<Tree>, freq: seq<nat>, a: nat, b: nat)
    requires a < |trees| && b < |trees| && forall x | 0 <= x < |trees| :: LeavesMatch(trees[x], freq)
    ensures var more := trees + [Node(trees[a], trees[b])];
            forall x | 0 <= x < |more| :: LeavesMatch(more[x], freq)
  {
    var more := trees + [Node(trees[a], trees[b])];
    forall x | 0 <= x < |more| ensures LeavesMatch(more[x], freq) {
      assert LeavesMatch(trees[a], freq) && LeavesMatch(trees[b], freq);
    }
  }

  /** What build_tree promises about its result. */
  ghost predicate CodeTree(t: Tree, freq: seq<nat>) {
    && SymbolsUsed(t, freq) && LeavesMatch(t, freq)
    && (Sum(freq) < WORD ==> MergeCost(t) == GreedyCost(UsedWeights(freq)) && Balanced(t) && Weight(t) == Sum(freq))
  }

  lemma DoneMerging(trees: seq<Tree>, f: multiset<nat>, freq: seq<nat>, root: nat)
    requires |freq| == 256 && Merging(trees, f, freq) && f == multiset{root}
    ensures CodeTree(trees[root], freq)
  {
    TotalTake(trees, f, root);
    assert f - multiset{root} == multiset{};
    var t := trees[root];
    assert Total(trees, f).symbols == Symbols(t);
    forall s: byte ensures Symbols(t)[s] == if freq[s] > 0 then 1 else 0 {
      UsedUpToCounts(freq, 256, s);
    }
    TotalSize(trees, f);
  }

  /** The pool, its heap and the trees they stand for. */
  ghost predicate Holds(t: HeapPool, trees: seq<Tree>)
    reads t, t.nodes, t.heap
  {
    t.Valid() && t.IsHeap() && |trees| == t.n && Represents(t.nodes[..], trees)
  }

  ghost function Members(t: HeapPool): multiset<nat>
    requires t.Valid()
    reads t, t.nodes, t.heap
  {
    multiset(t.Entries())
  }

  method PushTree(t: HeapPool, node: HNode, ghost trees: seq<Tree>, ghost tree: Tree)
    requires Holds(t, trees) && t.n < MAX_NODES && t.heapSize < MAX_NODES
    requires NodeIs(node, trees + [tree], |trees|)
    modifies t`n, t`heapSize, t.nodes, t.heap
    ensures Holds(t, trees + [tree]) && t.heapSize == old(t.heapSize) + 1
    ensures Members(t) == old(Members(t)) + multiset{|trees|}
  {
    ghost var ns := t.nodes[..];
    var idx := t.NewNode(node);
    RepresentsMore(ns, trees, node, tree);
    t.HeapPush(idx);
  }

  lemma LeafCount(trees: seq<Tree>, f: multiset<nat>, freq: seq<nat>, k: nat)
    requires k <= |freq| <= 256 && LeavesOf(trees, f, freq, k)
    ensures |trees| == |f| <= k
  {
    SumPrefix(freq, k);
  }

  method PushLeaf(t: HeapPool, freq: seq<uint32>, s: byte, ghost trees: seq<Tree>) returns (ghost more: seq<Tree>)
    requires Holds(t, trees) && |freq| == MAX_SYMBOLS && freq[s] > 0
    requires LeavesOf(trees, Members(t), freq, s)
    modifies t`n, t`heapSize, t.nodes, t.heap
    ensures Holds(t, more) && LeavesOf(more, Members(t), freq, s + 1)
  {
    hide LeavesOf, Ordered, CountUsed;
    LeafCount(trees, Members(t), freq, s);
    AddLeaf(trees, Members(t), freq, s);
    more := trees + [Leaf(s, freq[s])];
    PushTree(t, HNode(freq[s], -1, -1, s), trees, Leaf(s, freq[s]));
  }

  method PushLeaves(t: HeapPool, freq: seq<uint32>) returns (ghost trees: seq<Tree>)
    requires t.Valid() && |freq| == MAX_SYMBOLS
    modifies t`n, t`heapSize, t.nodes, t.heap
    ensures Holds(t, trees) && LeavesOf(trees, Members(t), freq, 256)
  {
    t.n := 0;
    t.heapSize := 0;
    trees := [];
    NoLeaves(freq);
    assert t.Entries() == [];
    for s := 0 to MAX_SYMBOLS
      invariant Holds(t, trees) && LeavesOf(trees, Members(t), freq, s)
    {
      if freq[s] > 0 {
        trees := PushLeaf(t, freq, s, trees);
      } else {
        SkipUnused(trees, Members(t), freq, s);
      }
    }
  }

  method PopTwo(t: HeapPool) returns (a: nat, b: nat)
    requires t.Valid() && t.IsHeap() && t.heapSize > 1
    modifies t`heapSize, t.heap
    ensures t.Valid() && t.IsHeap() && t.heapSize == old(t.heapSize) - 2
    ensures TwoSmallest(t.nodes[..], old(Members(t)), a, b)
    ensures Members(t) == old(Members(t)) - multiset{a} - multiset{b}
  {
    ghost var f := Members(t);
    a := t.HeapPop();
    assert Members(t) == f - multiset{a};
    b := t.HeapPop();
  }

  method MergeTwo(t: HeapPool, freq: seq<uint32>, ghost trees: seq<Tree>) returns (ghost more: seq<Tree>)
    requires Holds(t, trees) && |freq| == MAX_SYMBOLS && Merging(trees, Members(t), freq) && t.heapSize > 1
    modifies t`n, t`heapSize, t.nodes, t.heap
    ensures Holds(t, more) && Merging(more, Members(t), freq) && t.heapSize == old(t.heapSize) - 1
  {
    ghost var f := Members(t);
    CountAtMost(freq);
    var a, b := PopTwo(t);
    MergingStep(t.nodes[..], trees, f, freq, a, b);
    more := trees + [Node(trees[a], trees[b])];
    PushJoined(t, trees, a, b);
  }

  method PushJoined(t: HeapPool, ghost trees: seq<Tree>, a: nat, b: nat)
    requires Holds(t, trees) && t.n < MAX_NODES && t.heapSize < MAX_NODES && a < t.n && b < t.n
    modifies t`n, t`heapSize, t.nodes, t.heap
    ensures Holds(t, trees + [Node(trees[a], trees[b])]) && t.heapSize == old(t.heapSize) + 1
    ensures Members(t) == old(Members(t)) + multiset{|trees|}
  {
    var node := HNode((t.nodes[a].freq + t.nodes[b].freq) % WORD, a, b, -1);
    JoinedNode(t.nodes[..], trees, a, b, node);
    PushTree(t, node, trees, Node(trees[a], trees[b]));
  }

  lemma CountAtMost(freq: seq<nat>)
    requires |freq| == 256
    ensures CountUsed(freq) <= 256
  {
    SumPrefix(freq, 256);
    assert freq[..256] == freq;
  }

  lemma JoinedNode(ns: seq<HNode>, trees: seq<Tree>, a: nat, b: nat, node: HNode)
    requires Represents(ns, trees) && a < |trees| && b < |trees|
    requires node == HNode((ns[a].freq + ns[b].freq) % WORD, a, b, -1)
    ensures NodeIs(node, trees + [Node(trees[a], trees[b])], |trees|)
  {
    hide Weight;
    assert NodeIs(ns[a], trees, a) && NodeIs(ns[b], trees, b);
    NodeWeight(trees[a], trees[b]);
    WrappedSum(Weight(trees[a]), Weight(trees[b]));
  }

  lemma WrappedSum(a: nat, b: nat)
    ensures (a % WORD + b % WORD) % WORD == (a + b) % WORD
  {
  }

  /** The root of the tree for freq, or -1 when no symbol is used. */
  method BuildTree(t: HeapPool, freq: seq<uint32>) returns (root: int, ghost trees: seq<Tree>)
    requires t.Valid() && |freq| == MAX_SYMBOLS
    modifies t`n, t`heapSize, t.nodes, t.heap
    ensures t.Valid() && |trees| == t.n && Represents(t.nodes[..], trees)
    ensures root == -1 <==> CountUsed(freq) == 0
    ensures root != -1 ==> 0 <= root < |trees| && CodeTree(trees[root], freq)
  {
    trees := PushLeaves(t, freq);
    assert freq[..256] == freq;
    if t.heapSize == 0 {
      return -1, trees;
    }
    StartMerging(trees, Members(t), freq);
    root, trees := MergeAll(t, freq, trees);
  }

  method MergeAll(t: HeapPool, freq: seq<uint32>, ghost leaves: seq<Tree>) returns (root: nat, ghost trees: seq<Tree>)
    requires Holds(t, leaves) && |freq| == MAX_SYMBOLS && Merging(leaves, Members(t), freq)
    modifies t`n, t`heapSize, t.nodes, t.heap
    ensures Holds(t, trees) && root < |trees| && CodeTree(trees[root], freq)
  {
    hide Merging, CodeTree, Represents;
    trees := leaves;
    while t.heapSize > 1
      invariant Holds(t, trees) && Merging(trees, Members(t), freq)
      decreases t.heapSize
    {
      trees := MergeTwo(t, freq, trees);
    }
    ghost var f := Members(t);
    SomeMember(trees, f, freq);
    root := t.HeapPop();
    OnlyMember(f, root);
    DoneMerging(trees, f, freq, root);
  }

  lemma SomeMember(trees: seq<Tree>, f: multiset<nat>, freq: seq<nat>)
    requires |freq| == 256 && Merging(trees, f, freq)
    ensures |f| >= 1
  {
  }

  lemma OnlyMember(f: multiset<nat>, root: nat)
    requires |f| == 1 && root in f
    ensures f == multiset{root}
  {
    assert |f - multiset{root}| == 0;
    assert f == f - multiset{root} + multiset{root};
  }
}
