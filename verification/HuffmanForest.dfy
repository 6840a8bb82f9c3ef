/** The collection of trees held by the heap while the code tree is built. */
module HuffmanForest {
  import opened Bits
  import opened HuffmanCost
  import opened HuffmanTree
  import opened HuffmanHeap

  /** The pool slots ns[..|trees|] spell out the given trees, with weights modulo 2^32. */
  ghost predicate Represents(ns: seq<HNode>, trees: seq<Tree>) {
    |trees| <= |ns| && forall k | 0 <= k < |trees| :: NodeIs(ns[k], trees, k)
  }

  ghost predicate NodeIs(node: HNode, trees: seq<Tree>, k: nat)
    requires k < |trees|
  {
    && node.freq == Weight(trees[k]) % 0x1_0000_0000
    && if node.left == -1 then trees[k].Leaf? && trees[k].symbol == node.symbol
       else 0 <= node.left < k && 0 <= node.right < k &&
            trees[k] == Node(trees[node.left], trees[node.right])
  }

  lemma RepresentsMore(ns: seq<HNode>, trees: seq<Tree>, node: HNode, t: Tree)
    requires Represents(ns, trees) && |trees| < |ns|
    requires NodeIs(node, trees + [t], |trees|)
    ensures Represents(ns[|trees| := node], trees + [t])
  {
    var more := trees + [t];
    var ns' := ns[|trees| := node];
    forall k | 0 <= k < |more| ensures NodeIs(ns'[k], more, k) {
      if k < |trees| {
        assert NodeIs(ns[k], trees, k);
      }
    }
  }

  /* ---- Totals over a forest ---- */

  /** What a set of trees has in all: inner-node cost, root weights, leaf symbols, weight. */
  datatype Totals = Totals(cost: nat, weights: multiset<nat>, symbols: multiset<byte>, sum: nat)

  function TotalsOf(t: Tree): Totals {
    Totals(MergeCost(t), multiset{Weight(t)}, Symbols(t), Weight(t))
  }

  function Plus(a: Totals, b: Totals): Totals {
    Totals(a.cost + b.cost, a.weights + b.weights, a.symbols + b.symbols, a.sum + b.sum)
  }

  ghost predicate InForest(trees: seq<Tree>, f: multiset<nat>) {
    forall x | x in f :: x < |trees|
  }

  /** Totals of the trees numbered in f. */
  ghost function Total(trees: seq<Tree>, f: multiset<nat>): Totals
    requires InForest(trees, f)
    decreases |f|
  {
    if f == multiset{} then Totals(0, multiset{}, multiset{}, 0)
    else
      var x :| x in f;
      Plus(TotalsOf(trees[x]), Total(trees, f - multiset{x}))
  }

  lemma PlusSwap(a: Totals, b: Totals, c: Totals)
    ensures Plus(a, Plus(b, c)) == Plus(b, Plus(a, c))
  {
  }

  /** The order in which trees are added up does not matter. */
  lemma {:induction false} TotalTake(trees: seq<Tree>, f: multiset<nat>, x: nat)
    requires InForest(trees, f) && x in f
    ensures Total(trees, f) == Plus(TotalsOf(trees[x]), Total(trees, f - multiset{x}))
    decreases |f|
  {
    var y :| y in f && Total(trees, f) == Plus(TotalsOf(trees[y]), Total(trees, f - multiset{y}));
    if y != x {
      var fx, fy := f - multiset{x}, f - multiset{y};
      var g := fy - multiset{x};
      SwapTaken(f, x, y);
      TotalTake(trees, fy, x);
      TotalTake(trees, fx, y);
      PlusSwap(TotalsOf(trees[x]), TotalsOf(trees[y]), Total(trees, g));
    }
  }

  lemma SwapTaken(f: multiset<nat>, x: nat, y: nat)
    requires x in f && y in f && x != y
    ensures f - multiset{x} - multiset{y} == f - multiset{y} - multiset{x}
    ensures x in f - multiset{y} && y in f - multiset{x}
    ensures |f - multiset{x}| < |f| && |f - multiset{y}| < |f|
  {
  }

  lemma TotalAdd(trees: seq<Tree>, f: multiset<nat>, x: nat)
    requires InForest(trees, f) && x < |trees|
    ensures InForest(trees, f + multiset{x})
    ensures Total(trees, f + multiset{x}) == Plus(TotalsOf(trees[x]), Total(trees, f))
  {
    TotalTake(trees, f + multiset{x}, x);
    assert f + multiset{x} - multiset{x} == f;
  }

  lemma {:induction false} TotalMoreTrees(trees: seq<Tree>, t: Tree, f: multiset<nat>)
    requires InForest(trees, f)
    ensures InForest(trees + [t], f) && Total(trees + [t], f) == Total(trees, f)
    decreases |f|
  {
    if f != multiset{} {
      var x :| x in f;
      TotalMoreTrees(trees, t, f - multiset{x});
      TotalTake(trees, f, x);
      TotalTake(trees + [t], f, x);
    }
  }

  lemma {:induction false} TotalWeights(trees: seq<Tree>, f: multiset<nat>, w: nat) returns (x: nat)
    requires InForest(trees, f) && w in Total(trees, f).weights
    ensures x in f && Weight(trees[x]) == w
    decreases |f|
  {
    var y :| y in f;
    TotalTake(trees, f, y);
    if Weight(trees[y]) == w {
      x := y;
    } else {
      x := TotalWeights(trees, f - multiset{y}, w);
    }
  }

  /** The forest with trees a and b replaced by one node over both. */
  ghost function Joined(f: multiset<nat>, a: nat, b: nat, new_: nat): multiset<nat> {
    f - multiset{a} - multiset{b} + multiset{new_}
  }

  lemma TotalParts(trees: seq<Tree>, f: multiset<nat>, a: nat, b: nat, t: Tree)
    requires InForest(trees, f) && a in f && b in f - multiset{a}
    ensures InForest(trees + [t], Joined(f, a, b, |trees|)) && InForest(trees, f - multiset{a} - multiset{b})
    ensures var rest := Total(trees, f - multiset{a} - multiset{b});
            && Total(trees, f) == Plus(TotalsOf(trees[a]), Plus(TotalsOf(trees[b]), rest))
            && Total(trees + [t], Joined(f, a, b, |trees|)) == Plus(TotalsOf(t), rest)
  {
    var rest := f - multiset{a} - multiset{b};
    TotalTake(trees, f, a);
    TotalTake(trees, f - multiset{a}, b);
    TotalMoreTrees(trees, t, rest);
    TotalAdd(trees + [t], rest, |trees|);
  }

  lemma TotalJoined(trees: seq<Tree>, f: multiset<nat>, a: nat, b: nat)
    requires InForest(trees, f) && a in f && b in f - multiset{a}
    ensures InForest(trees + [Node(trees[a], trees[b])], Joined(f, a, b, |trees|))
    ensures var t, t' := Total(trees, f), Total(trees + [Node(trees[a], trees[b])], Joined(f, a, b, |trees|));
            && t'.cost == t.cost + Weight(trees[a]) + Weight(trees[b])
            && t'.weights == MergeStep(t.weights, Weight(trees[a]), Weight(trees[b]))
            && t'.symbols == t.symbols && t'.sum == t.sum
  {
    var ta, tb := trees[a], trees[b];
    TotalParts(trees, f, a, b, Node(ta, tb));
    NodeTotals(ta, tb);
    Combine(TotalsOf(ta), TotalsOf(tb), TotalsOf(Node(ta, tb)), Total(trees, f - multiset{a} - multiset{b}),
      Weight(ta), Weight(tb));
  }

  ghost predicate NodeOver(a: Totals, b: Totals, wa: nat, wb: nat, n: Totals) {
    && n.cost == wa + wb + a.cost + b.cost && n.weights == multiset{wa + wb}
    && n.symbols == a.symbols + b.symbols && n.sum == a.sum + b.sum
  }

  lemma NodeTotals(a: Tree, b: Tree)
    ensures NodeOver(TotalsOf(a), TotalsOf(b), Weight(a), Weight(b), TotalsOf(Node(a, b)))
  {
    hide *;
    NodeParts(a, b);
    var ta, tb, t := TotalsOf(a), TotalsOf(b), TotalsOf(Node(a, b));
    TotalsAre(a);
    TotalsAre(b);
    TotalsAre(Node(a, b));
    NodeOverIs(ta, tb, Weight(a), Weight(b), t);
  }

  lemma TotalsAre(t: Tree)
    ensures var x := TotalsOf(t);
            x.cost == MergeCost(t) && x.weights == multiset{Weight(t)} && x.symbols == Symbols(t) && x.sum == Weight(t)
  {
    hide Weight, MergeCost, Symbols;
  }

  lemma NodeOverIs(a: Totals, b: Totals, wa: nat, wb: nat, n: Totals)
    requires n.cost == wa + wb + a.cost + b.cost && n.weights == multiset{wa + wb}
    requires n.symbols == a.symbols + b.symbols && n.sum == a.sum + b.sum
    ensures NodeOver(a, b, wa, wb, n)
  {
  }

  lemma NodeParts(a: Tree, b: Tree)
    ensures Weight(Node(a, b)) == Weight(a) + Weight(b) && Symbols(Node(a, b)) == Symbols(a) + Symbols(b)
    ensures MergeCost(Node(a, b)) == Weight(a) + Weight(b) + MergeCost(a) + MergeCost(b)
  {
  }

  lemma Combine(a: Totals, b: Totals, n: Totals, rest: Totals, wa: nat, wb: nat)
    requires a.weights == multiset{wa} && b.weights == multiset{wb} && NodeOver(a, b, wa, wb, n)
    ensures var t, t' := Plus(a, Plus(b, rest)), Plus(n, rest);
            && t'.cost == t.cost + wa + wb && t'.weights == MergeStep(t.weights, wa, wb)
            && t'.symbols == t.symbols && t'.sum == t.sum
  {
    JoinedSymbols(a.symbols, b.symbols, rest.symbols);
    CombineWeights(rest.weights, wa, wb);
  }

  lemma CombineWeights(rest: multiset<nat>, a: nat, b: nat)
    ensures multiset{a + b} + rest == MergeStep(multiset{a} + (multiset{b} + rest), a, b)
  {
    MergeStepOf(multiset{a} + (multiset{b} + rest), rest, a, b);
  }

  lemma JoinedSymbols(a: multiset<byte>, b: multiset<byte>, rest: multiset<byte>)
    ensures a + b + rest == a + (b + rest)
  {
  }

  lemma WeightAtMostSum(trees: seq<Tree>, f: multiset<nat>, x: nat)
    requires InForest(trees, f) && x in f
    ensures Weight(trees[x]) <= Total(trees, f).sum
  {
    TotalTake(trees, f, x);
  }

  ghost predicate Lightest(trees: seq<Tree>, f: multiset<nat>, x: nat)
    requires InForest(trees, f)
  {
    x in f && forall y | y in f :: Weight(trees[x]) <= Weight(trees[y])
  }

  lemma LightestIsMin(trees: seq<Tree>, f: multiset<nat>, x: nat)
    requires InForest(trees, f) && Lightest(trees, f, x)
    ensures IsMin(Total(trees, f).weights, Weight(trees[x]))
    ensures Total(trees, f).weights - multiset{Weight(trees[x])} == Total(trees, f - multiset{x}).weights
  {
    TotalTake(trees, f, x);
    forall w | w in Total(trees, f).weights ensures Weight(trees[x]) <= w {
      var y := TotalWeights(trees, f, w);
    }
  }

  lemma {:induction false} TotalSize(trees: seq<Tree>, f: multiset<nat>)
    requires InForest(trees, f)
    ensures |Total(trees, f).weights| == |f|
    decreases |f|
  {
    if f != multiset{} {
      var x :| x in f;
      TotalTake(trees, f, x);
      TotalSize(trees, f - multiset{x});
    }
  }

  /** Joining the two lightest trees is one step of greedy merging. */
  lemma JoinLightest(trees: seq<Tree>, f: multiset<nat>, a: nat, b: nat)
    requires InForest(trees, f) && Lightest(trees, f, a) && Lightest(trees, f - multiset{a}, b)
    ensures GreedyCost(Total(trees, f).weights) == Weight(trees[a]) + Weight(trees[b]) +
            GreedyCost(MergeStep(Total(trees, f).weights, Weight(trees[a]), Weight(trees[b])))
  {
    LightestIsMin(trees, f, a);
    LightestIsMin(trees, f - multiset{a}, b);
    TotalSize(trees, f);
    GreedyStep(Total(trees, f).weights, Weight(trees[a]), Weight(trees[b]));
  }

  /* ---- Sibling weights ---- */

  /** Every tree is balanced and no tree is lighter than a child of another one. */
  ghost predicate ForestBalanced(trees: seq<Tree>, f: multiset<nat>)
    requires InForest(trees, f)
  {
    && (forall x | x in f :: Balanced(trees[x]))
    && (forall x, y | x in f && y in f - multiset{x} :: HeavierChild(trees[x]) <= Weight(trees[y]))
  }

  lemma JoinKeepsBalance(trees: seq<Tree>, f: multiset<nat>, a: nat, b: nat)
    requires InForest(trees, f) && Lightest(trees, f, a) && Lightest(trees, f - multiset{a}, b)
    requires ForestBalanced(trees, f)
    requires InForest(trees + [Node(trees[a], trees[b])], Joined(f, a, b, |trees|))
    ensures ForestBalanced(trees + [Node(trees[a], trees[b])], Joined(f, a, b, |trees|))
  {
    var more := trees + [Node(trees[a], trees[b])];
    var g := Joined(f, a, b, |trees|);
    forall x | x in g ensures Balanced(more[x]) {
      JoinBalanced(trees, f, a, b, x);
    }
    forall x, y | x in g && y in g - multiset{x}
      ensures HeavierChild(more[x]) <= Weight(more[y])
    {
      JoinKeepsPair(trees, f, a, b, x, y);
    }
  }

  lemma JoinBalanced(trees: seq<Tree>, f: multiset<nat>, a: nat, b: nat, x: nat)
    requires InForest(trees, f) && a in f && b in f - multiset{a}
    requires ForestBalanced(trees, f) && x in Joined(f, a, b, |trees|)
    ensures x <= |trees| && Balanced((trees + [Node(trees[a], trees[b])])[x])
  {
    if x == |trees| {
      assert a in f - multiset{b};
    } else {
      assert x in f;
    }
  }

  lemma JoinKeepsPair(trees: seq<Tree>, f: multiset<nat>, a: nat, b: nat, x: nat, y: nat)
    requires InForest(trees, f) && Lightest(trees, f, a) && Lightest(trees, f - multiset{a}, b)
    requires ForestBalanced(trees, f)
    requires x in Joined(f, a, b, |trees|) && y in Joined(f, a, b, |trees|) - multiset{x}
    ensures x <= |trees| && y <= |trees|
    ensures var more := trees + [Node(trees[a], trees[b])]; HeavierChild(more[x]) <= Weight(more[y])
  {
    hide HeavierChild, Joined;
    PairMembers(f, a, b, |trees|, x, y);
    if x == |trees| {
      NewIsHeavy(trees[a], trees[b], trees[y]);
    } else if y == |trees| {
      NodeWeight(trees[a], trees[b]);
    }
  }

  lemma PairMembers(f: multiset<nat>, a: nat, b: nat, new_: nat, x: nat, y: nat)
    requires a in f && b in f - multiset{a} && new_ !in f
    requires x in Joined(f, a, b, new_) && y in Joined(f, a, b, new_) - multiset{x}
    ensures x == new_ ==> y in f && y in f - multiset{a}
    ensures y == new_ && x != new_ ==> x in f && a in f - multiset{x}
    ensures x != new_ && y != new_ ==> x in f && y in f - multiset{x}
  {
    var rest := f - multiset{a} - multiset{b};
    if x == new_ {
      assert y in rest;
    } else {
      assert x in rest;
    }
  }

  lemma NewIsHeavy(ta: Tree, tb: Tree, t: Tree)
    requires Weight(ta) <= Weight(t) && Weight(tb) <= Weight(t)
    ensures HeavierChild(Node(ta, tb)) <= Weight(t)
  {
  }

  lemma NodeWeight(ta: Tree, tb: Tree)
    ensures Weight(Node(ta, tb)) == Weight(ta) + Weight(tb)
  {
  }
}
