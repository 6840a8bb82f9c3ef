/** Lower bounds on code lengths: the cost reached by always merging the two
    smallest weights is minimal over all length assignments that satisfy
    Kraft's inequality, hence over all prefix-free codes. */
module HuffmanCost {
  import opened Bits

  /* ---- The smallest weight of a collection ---- */

  lemma {:induction false} MinExists(ws: multiset<nat>) returns (m: nat)
    requires |ws| > 0
    ensures m in ws && forall x | x in ws :: m <= x
    decreases |ws|
  {
    m :| m in ws;
    var rest := ws - multiset{m};
    if |rest| > 0 {
      var m' := MinExists(rest);
      if m' < m {
        m := m';
      }
    }
    forall x | x in ws ensures m <= x {
      assert x in rest || rest == multiset{} || x == m || rest[x] > 0 || ws[x] == 1;
    }
  }

  ghost predicate IsMin(ws: multiset<nat>, m: nat) {
    m in ws && forall x | x in ws :: m <= x
  }

  lemma SomeMin(ws: multiset<nat>)
    requires |ws| > 0
    ensures exists m :: IsMin(ws, m)
  {
    var m := MinExists(ws);
    assert IsMin(ws, m);
  }

  ghost function Min(ws: multiset<nat>): (m: nat)
    requires |ws| > 0
    ensures IsMin(ws, m)
  {
    SomeMin(ws);
    var m :| IsMin(ws, m);
    m
  }

  /** ws with a and b replaced by their sum. */
  ghost function MergeStep(ws: multiset<nat>, a: nat, b: nat): multiset<nat> {
    ws - multiset{a} - multiset{b} + multiset{a + b}
  }

  /** Cost of repeatedly merging the two smallest weights. */
  ghost function GreedyCost(ws: multiset<nat>): nat
    decreases |ws|
  {
    if |ws| <= 1 then 0
    else
      var a := Min(ws);
      var b := Min(ws - multiset{a});
      a + b + GreedyCost(MergeStep(ws, a, b))
  }

  lemma MinUnique(ws: multiset<nat>, a: nat, b: nat)
    requires IsMin(ws, a) && IsMin(ws, b)
    ensures a == b
  {
  }

  /** Ties between equal weights do not change the cost. */
  lemma GreedyStep(ws: multiset<nat>, a: nat, b: nat)
    requires |ws| >= 2 && IsMin(ws, a) && IsMin(ws - multiset{a}, b)
    ensures GreedyCost(ws) == a + b + GreedyCost(MergeStep(ws, a, b))
  {
    var a', b' := Min(ws), Min(ws - multiset{Min(ws)});
    assert GreedyCost(ws) == a' + b' + GreedyCost(MergeStep(ws, a', b'));
    MinUnique(ws, a, a');
    MinUnique(ws - multiset{a}, b, b');
  }

  /* ---- Weighted lengths ---- */

  /** w * n by repeated addition, which keeps the sums below linear. */
  function Times(w: nat, n: nat): nat {
    if n == 0 then 0 else w + Times(w, n - 1)
  }

  lemma {:induction false} TimesIsProduct(w: nat, n: nat)
    ensures Times(w, n) == w * n
  {
    if n > 0 {
      TimesIsProduct(w, n - 1);
    }
  }

  lemma {:induction false} TimesSum(a: nat, b: nat, n: nat)
    ensures Times(a + b, n) == Times(a, n) + Times(b, n)
  {
    if n > 0 {
      TimesSum(a, b, n - 1);
    }
  }

  /** The larger weight gains more from the longer length. */
  lemma {:induction false} Rearrange(a: nat, b: nat, x: nat, y: nat)
    requires a <= b && x <= y
    ensures Times(b, x) + Times(a, y) <= Times(a, x) + Times(b, y)
    decreases y
  {
    if x < y {
      Rearrange(a, b, x, y - 1);
    }
  }

  datatype Entry = Entry(weight: nat, len: nat)

  function Cost(es: seq<Entry>): nat {
    if es == [] then 0 else Times(es[0].weight, es[0].len) + Cost(es[1..])
  }

  ghost predicate Within(es: seq<Entry>, d: nat) {
    forall k | 0 <= k < |es| :: es[k].len <= d
  }

  /** Kraft's sum scaled by Pow2(d). */
  function Kraft(es: seq<Entry>, d: nat): nat
    requires Within(es, d)
  {
    if es == [] then 0 else Pow2(d - es[0].len) + Kraft(es[1..], d)
  }

  function Weights(es: seq<Entry>): multiset<nat> {
    if es == [] then multiset{} else multiset{es[0].weight} + Weights(es[1..])
  }

  function Without(es: seq<Entry>, k: nat): (r: seq<Entry>)
    requires k < |es|
    ensures |r| == |es| - 1
  {
    if k == 0 then es[1..] else [es[0]] + Without(es[1..], k - 1)
  }

  lemma {:induction false} WithoutAt(es: seq<Entry>, k: nat, i: nat)
    requires k < |es| && i < |es| - 1
    ensures Without(es, k)[i] == if i < k then es[i] else es[i + 1]
  {
    if k > 0 && i > 0 {
      WithoutAt(es[1..], k - 1, i - 1);
    }
  }

  lemma {:induction false} UpdateWithout(es: seq<Entry>, k: nat, e: Entry)
    requires k < |es|
    ensures Without(es[k := e], k) == Without(es, k)
  {
    if k > 0 {
      assert es[k := e][1..] == es[1..][k - 1 := e];
      UpdateWithout(es[1..], k - 1, e);
    }
  }

  lemma {:induction false} CostSplit(es: seq<Entry>, k: nat)
    requires k < |es|
    ensures Cost(es) == Cost(Without(es, k)) + Times(es[k].weight, es[k].len)
  {
    if k > 0 {
      CostSplit(es[1..], k - 1);
      assert Without(es, k)[1..] == Without(es[1..], k - 1);
    }
  }

  lemma {:induction false} KraftSplit(es: seq<Entry>, k: nat, d: nat)
    requires k < |es| && Within(es, d)
    ensures Within(Without(es, k), d)
    ensures Kraft(es, d) == Kraft(Without(es, k), d) + Pow2(d - es[k].len)
  {
    if k > 0 {
      KraftSplit(es[1..], k - 1, d);
      assert Without(es, k)[1..] == Without(es[1..], k - 1);
    }
  }

  lemma {:induction false} WeightsSplit(es: seq<Entry>, k: nat)
    requires k < |es|
    ensures Weights(es) == Weights(Without(es, k)) + multiset{es[k].weight}
  {
    if k > 0 {
      WeightsSplit(es[1..], k - 1);
      assert Without(es, k)[1..] == Without(es[1..], k - 1);
    }
  }

  lemma {:induction false} WeightsSize(es: seq<Entry>)
    ensures |Weights(es)| == |es|
  {
    if es != [] {
      WeightsSize(es[1..]);
    }
  }

  lemma {:induction false} FindWeight(es: seq<Entry>, w: nat) returns (k: nat)
    requires w in Weights(es)
    ensures k < |es| && es[k].weight == w
  {
    if es[0].weight == w {
      k := 0;
    } else {
      k := FindWeight(es[1..], w);
      k := k + 1;
    }
  }

  lemma {:induction false} KraftShallower(es: seq<Entry>, d: nat)
    requires d > 0 && Within(es, d - 1)
    ensures Within(es, d) && Kraft(es, d) == 2 * Kraft(es, d - 1)
  {
    if es != [] {
      KraftShallower(es[1..], d);
    }
  }

  lemma {:induction false} KraftAtLeastSize(es: seq<Entry>, d: nat)
    requires Within(es, d)
    ensures Kraft(es, d) >= |es|
  {
    if es != [] {
      KraftAtLeastSize(es[1..], d);
    }
  }

  /** es with the weights of entries p and i exchanged. */
  function Exchange(es: seq<Entry>, p: nat, i: nat): (fs: seq<Entry>)
    requires p < |es| && i < |es|
  {
    es[p := Entry(es[i].weight, es[p].len)][i := Entry(es[p].weight, es[i].len)]
  }

  lemma {:induction false} WithoutUpdate(es: seq<Entry>, p: nat, i: nat, e: Entry)
    requires p < i < |es|
    ensures Without(es[p := e], i) == Without(es, i)[p := e]
  {
    if p > 0 {
      assert es[p := e][1..] == es[1..][p - 1 := e];
      WithoutUpdate(es[1..], p - 1, i - 1, e);
    }
  }

  lemma ExchangeSplit(es: seq<Entry>, p: nat, i: nat)
    requires p < i < |es|
    ensures Without(es, i)[p] == es[p]
    ensures Without(Exchange(es, p, i), i)[p] == Entry(es[i].weight, es[p].len)
    ensures Without(Without(Exchange(es, p, i), i), p) == Without(Without(es, i), p)
  {
    var e1 := Entry(es[i].weight, es[p].len);
    var e2 := Entry(es[p].weight, es[i].len);
    UpdateWithout(es[p := e1], i, e2);
    WithoutUpdate(es, p, i, e1);
    UpdateWithout(Without(es, i), p, e1);
    WithoutAt(es, i, p);
  }

  lemma ExchangeCost(es: seq<Entry>, p: nat, i: nat)
    requires p < i < |es|
    ensures Cost(Exchange(es, p, i)) + Times(es[p].weight, es[p].len) + Times(es[i].weight, es[i].len)
         == Cost(es) + Times(es[i].weight, es[p].len) + Times(es[p].weight, es[i].len)
  {
    ExchangeSplit(es, p, i);
    CostSplit(es, i);
    CostSplit(Without(es, i), p);
    CostSplit(Exchange(es, p, i), i);
    CostSplit(Without(Exchange(es, p, i), i), p);
  }

  lemma ExchangeWeights(es: seq<Entry>, p: nat, i: nat)
    requires p < i < |es|
    ensures Weights(Exchange(es, p, i)) == Weights(es)
  {
    ExchangeSplit(es, p, i);
    WeightsSplit(es, i);
    WeightsSplit(Without(es, i), p);
    WeightsSplit(Exchange(es, p, i), i);
    WeightsSplit(Without(Exchange(es, p, i), i), p);
  }

  lemma {:induction false} SameLensSameKraft(es: seq<Entry>, fs: seq<Entry>, d: nat)
    requires |es| == |fs| && Within(es, d)
    requires forall k | 0 <= k < |es| :: es[k].len == fs[k].len
    ensures Within(fs, d) && Kraft(fs, d) == Kraft(es, d)
  {
    if es != [] {
      SameLensSameKraft(es[1..], fs[1..], d);
    }
  }

  /** Giving the smaller of two weights the longer of two lengths. */
  lemma ExchangeImproves(es: seq<Entry>, p: nat, i: nat, d: nat)
    requires p < |es| && i < |es| && Within(es, d)
    requires es[p].weight <= es[i].weight && es[p].len <= es[i].len
    ensures Within(Exchange(es, p, i), d) && Kraft(Exchange(es, p, i), d) == Kraft(es, d)
    ensures Weights(Exchange(es, p, i)) == Weights(es)
    ensures Cost(Exchange(es, p, i)) <= Cost(es)
  {
    SameLensSameKraft(es, Exchange(es, p, i), d);
    Rearrange(es[p].weight, es[i].weight, es[p].len, es[i].len);
    if p < i {
      ExchangeCost(es, p, i);
      ExchangeWeights(es, p, i);
    } else if i < p {
      assert Exchange(es, p, i) == Exchange(es, i, p);
      ExchangeCost(es, i, p);
      ExchangeWeights(es, i, p);
    } else {
      assert Exchange(es, p, i) == es;
    }
  }

  /** One smallest weight moved onto entry i, which has the largest length. */
  lemma MinimumAt(es: seq<Entry>, i: nat, d: nat) returns (fs: seq<Entry>)
    requires i < |es| && Within(es, d) && es[i].len == d
    ensures |fs| == |es| && Within(fs, d) && Kraft(fs, d) == Kraft(es, d)
    ensures forall k | 0 <= k < |es| :: fs[k].len == es[k].len
    ensures Weights(fs) == Weights(es) && Cost(fs) <= Cost(es)
    ensures IsMin(Weights(es), fs[i].weight)
  {
    WeightsSize(es);
    var a := Min(Weights(es));
    var p := FindWeight(es, a);
    InWeights(es, i);
    ExchangeImproves(es, p, i, d);
    fs := Exchange(es, p, i);
  }

  /** The smallest weight but that of entry i moved onto entry j. */
  lemma SecondMinimumAt(es: seq<Entry>, i: nat, j: nat, d: nat) returns (fs: seq<Entry>)
    requires i < j < |es| && Within(es, d) && es[j].len == d
    ensures |fs| == |es| && Within(fs, d) && Kraft(fs, d) == Kraft(es, d)
    ensures forall k | 0 <= k < |es| :: fs[k].len == es[k].len
    ensures Weights(fs) == Weights(es) && Cost(fs) <= Cost(es)
    ensures fs[i] == es[i]
    ensures IsMin(Weights(es) - multiset{es[i].weight}, fs[j].weight)
  {
    var q := FindOtherMin(es, i, j);
    ExchangeImproves(es, q, j, d);
    fs := Exchange(es, q, j);
  }

  /** A smallest weight among the entries other than i. */
  lemma FindOtherMin(es: seq<Entry>, i: nat, j: nat) returns (q: nat)
    requires i < |es| && j < |es| && i != j
    ensures q < |es| && q != i && es[q].weight <= es[j].weight
    ensures IsMin(Weights(es) - multiset{es[i].weight}, es[q].weight)
  {
    var rest := Without(es, i);
    WeightsSplit(es, i);
    assert Weights(es) - multiset{es[i].weight} == Weights(rest);
    WeightsSize(rest);
    var p := FindWeight(rest, Min(Weights(rest)));
    WithoutAt(es, i, p);
    q := if p < i then p else p + 1;
    var j' := if j < i then j else j - 1;
    WithoutAt(es, i, j');
    InWeights(rest, j');
  }

  lemma {:induction false} InWeights(es: seq<Entry>, k: nat)
    requires k < |es|
    ensures es[k].weight in Weights(es)
  {
    if k > 0 {
      InWeights(es[1..], k - 1);
    }
  }

  lemma Prepend(e: Entry, es: seq<Entry>, d: nat)
    requires Within(es, d) && e.len <= d
    ensures Within([e] + es, d)
    ensures Cost([e] + es) == Times(e.weight, e.len) + Cost(es)
    ensures Kraft([e] + es, d) == Pow2(d - e.len) + Kraft(es, d)
    ensures Weights([e] + es) == multiset{e.weight} + Weights(es)
  {
    assert ([e] + es)[1..] == es;
  }

  lemma TakeOut(es: seq<Entry>, k: nat, d: nat) returns (rest: seq<Entry>)
    requires k < |es| && Within(es, d)
    ensures |rest| == |es| - 1 && Within(rest, d)
    ensures Cost(es) == Cost(rest) + Times(es[k].weight, es[k].len)
    ensures Kraft(es, d) == Kraft(rest, d) + Pow2(d - es[k].len)
    ensures Weights(es) == Weights(rest) + multiset{es[k].weight}
    ensures forall i | 0 <= i < k :: rest[i] == es[i]
  {
    rest := Without(es, k);
    CostSplit(es, k);
    KraftSplit(es, k, d);
    WeightsSplit(es, k);
    forall i | 0 <= i < k ensures rest[i] == es[i] {
      WithoutAt(es, k, i);
    }
  }

  lemma TakeOutTwo(es: seq<Entry>, i: nat, j: nat, d: nat) returns (rest: seq<Entry>)
    requires i < j < |es| && Within(es, d)
    ensures |rest| == |es| - 2 && Within(rest, d)
    ensures Cost(es) == Cost(rest) + Times(es[i].weight, es[i].len) + Times(es[j].weight, es[j].len)
    ensures Kraft(es, d) == Kraft(rest, d) + Pow2(d - es[i].len) + Pow2(d - es[j].len)
    ensures Weights(es) == Weights(rest) + multiset{es[i].weight} + multiset{es[j].weight}
  {
    var one := TakeOut(es, j, d);
    rest := TakeOut(one, i, d);
  }

  lemma MergeStepOf(ws: multiset<nat>, rest: multiset<nat>, a: nat, b: nat)
    requires ws == rest + multiset{a} + multiset{b}
    ensures MergeStep(ws, a, b) == multiset{a + b} + rest
  {
    assert ws - multiset{a} - multiset{b} == rest;
  }

  /** Two entries of length d replaced by their sum one level up. */
  lemma Merge(es: seq<Entry>, i: nat, j: nat, d: nat) returns (fs: seq<Entry>)
    requires i < j < |es| && d > 0 && es[i].len == d && es[j].len == d && Within(es, d)
    ensures |fs| == |es| - 1 && Within(fs, d) && Kraft(fs, d) == Kraft(es, d)
    ensures Cost(fs) + es[i].weight + es[j].weight == Cost(es)
    ensures Weights(fs) == MergeStep(Weights(es), es[i].weight, es[j].weight)
  {
    var a, b := es[i].weight, es[j].weight;
    var rest := TakeOutTwo(es, i, j, d);
    fs := [Entry(a + b, d - 1)] + rest;
    Prepend(Entry(a + b, d - 1), rest, d);
    assert Kraft(fs, d) == Kraft(es, d) by {
      assert Pow2(1) == 2 * Pow2(0);
    }
    assert Cost(fs) + a + b == Cost(es) by {
      TimesSum(a, b, d - 1);
    }
    MergeStepOf(Weights(es), Weights(rest), a, b);
  }

  /** No length assignment within Kraft's inequality costs less than greedy merging. */
  lemma {:induction false} KraftLowerBound(es: seq<Entry>, d: nat)
    requires |es| > 0 && Within(es, d) && Kraft(es, d) <= Pow2(d)
    ensures Cost(es) >= GreedyCost(Weights(es))
    decreases |es|, d
  {
    WeightsSize(es);
    if |es| >= 2 {
      if i :| 0 <= i < |es| && es[i].len == d {
        if j :| 0 <= j < |es| && j != i && es[j].len == d {
          TwoDeepest(es, if i < j then i else j, if i < j then j else i, d);
        } else {
          OneDeepest(es, i, d);
        }
      } else {
        KraftAtLeastSize(es, d);
        KraftShallower(es, d);
        KraftLowerBound(es, d - 1);
      }
    }
  }

  lemma {:induction false} TwoDeepest(es: seq<Entry>, i: nat, j: nat, d: nat)
    requires i < j < |es| && Within(es, d) && Kraft(es, d) <= Pow2(d)
    requires es[i].len == d && es[j].len == d
    ensures Cost(es) >= GreedyCost(Weights(es))
    decreases |es|, d, 0
  {
    KraftAtLeastSize(es, d);
    var fs := MinimumAt(es, i, d);
    var gs := SecondMinimumAt(fs, i, j, d);
    var hs := Merge(gs, i, j, d);
    KraftLowerBound(hs, d);
    WeightsSize(es);
    GreedyStep(Weights(es), gs[i].weight, gs[j].weight);
  }

  lemma {:induction false} OneDeepest(es: seq<Entry>, i: nat, d: nat)
    requires |es| >= 2 && Within(es, d) && Kraft(es, d) <= Pow2(d)
    requires i < |es| && es[i].len == d
    requires forall j | 0 <= j < |es| && j != i :: es[j].len != d
    ensures Cost(es) >= GreedyCost(Weights(es))
    decreases |es|, d, 0
  {
    KraftAtLeastSize(es, d);
    var fs := es[i := Entry(es[i].weight, d - 1)];
    ShortenKraft(es, i, d);
    KraftLowerBound(fs, d - 1);
    ShortenCost(es, i, d);
  }

  lemma ShortenCost(es: seq<Entry>, i: nat, d: nat)
    requires d > 0 && i < |es| && es[i].len == d
    ensures Cost(es[i := Entry(es[i].weight, d - 1)]) <= Cost(es)
    ensures Weights(es[i := Entry(es[i].weight, d - 1)]) == Weights(es)
  {
    var fs := es[i := Entry(es[i].weight, d - 1)];
    UpdateWithout(es, i, fs[i]);
    CostSplit(es, i);
    CostSplit(fs, i);
    WeightsSplit(es, i);
    WeightsSplit(fs, i);
  }

  /** A single deepest word leaves an odd sum, so shortening it keeps the inequality. */
  lemma ShortenKraft(es: seq<Entry>, i: nat, d: nat)
    requires d > 0 && Within(es, d) && Kraft(es, d) <= Pow2(d)
    requires i < |es| && es[i].len == d
    requires forall j | 0 <= j < |es| && j != i :: es[j].len != d
    ensures Within(es[i := Entry(es[i].weight, d - 1)], d - 1)
    ensures Kraft(es[i := Entry(es[i].weight, d - 1)], d - 1) <= Pow2(d - 1)
  {
    var rest := Without(es, i);
    KraftSplit(es, i, d);
    forall k | 0 <= k < |rest| ensures rest[k].len <= d - 1 {
      WithoutAt(es, i, k);
    }
    KraftShallower(rest, d);
    var fs := es[i := Entry(es[i].weight, d - 1)];
    UpdateWithout(es, i, fs[i]);
    KraftSplit(fs, i, d - 1);
  }

  /* ---- Prefix-free codes satisfy Kraft's inequality ---- */

  predicate Comparable(a: seq<bit>, b: seq<bit>) {
    a <= b || b <= a
  }

  predicate PrefixFree(cs: seq<seq<bit>>) {
    cs != [] ==> (forall c | c in cs[1..] :: !Comparable(cs[0], c)) && PrefixFree(cs[1..])
  }

  /** The code words that start with b, with b taken off. */
  function Branch(cs: seq<seq<bit>>, b: bit): seq<seq<bit>> {
    if cs == [] then []
    else if cs[0] != [] && cs[0][0] == b then [cs[0][1..]] + Branch(cs[1..], b)
    else Branch(cs[1..], b)
  }

  ghost predicate Short(cs: seq<seq<bit>>, d: nat) {
    forall c | c in cs :: |c| <= d
  }

  function KraftOfCode(cs: seq<seq<bit>>, d: nat): nat
    requires Short(cs, d)
  {
    if cs == [] then 0 else Pow2(d - |cs[0]|) + KraftOfCode(cs[1..], d)
  }

  lemma {:induction false} BranchMember(cs: seq<seq<bit>>, b: bit)
    ensures forall c | c in Branch(cs, b) :: [b] + c in cs
  {
    if cs != [] {
      BranchMember(cs[1..], b);
      assert forall c | c in cs[1..] :: c in cs;
      if cs[0] != [] && cs[0][0] == b {
        assert [b] + cs[0][1..] == cs[0];
      }
    }
  }

  lemma {:induction false} BranchPrefixFree(cs: seq<seq<bit>>, b: bit)
    requires PrefixFree(cs)
    ensures PrefixFree(Branch(cs, b))
  {
    if cs != [] {
      BranchPrefixFree(cs[1..], b);
      if cs[0] != [] && cs[0][0] == b {
        BranchMember(cs[1..], b);
        var rest := Branch(cs[1..], b);
        forall c | c in rest ensures !Comparable(cs[0][1..], c) {
          assert cs[0] == [b] + cs[0][1..];
          assert !Comparable(cs[0], [b] + c);
        }
        assert Branch(cs, b)[1..] == rest;
      }
    }
  }

  lemma {:induction false} BranchKraft(cs: seq<seq<bit>>, d: nat)
    requires d > 0 && Short(cs, d) && [] !in cs
    ensures Short(Branch(cs, 0), d - 1) && Short(Branch(cs, 1), d - 1)
    ensures KraftOfCode(cs, d) == KraftOfCode(Branch(cs, 0), d - 1) + KraftOfCode(Branch(cs, 1), d - 1)
  {
    hide Pow2;
    if cs != [] {
      assert cs[0] in cs;
      BranchKraft(cs[1..], d);
      var b := cs[0][0];
      assert Branch(cs, b)[1..] == Branch(cs[1..], b);
    }
  }

  lemma {:induction false} PrefixFreeKraft(cs: seq<seq<bit>>, d: nat)
    requires Short(cs, d) && PrefixFree(cs)
    ensures KraftOfCode(cs, d) <= Pow2(d)
    decreases d
  {
    if |cs| == 1 {
      Pow2Monotone(d - |cs[0]|, d);
    } else if |cs| > 1 {
      EmptyWordAlone(cs);
      assert cs[0] in cs;
      BranchKraft(cs, d);
      BranchPrefixFree(cs, 0);
      BranchPrefixFree(cs, 1);
      PrefixFreeKraft(Branch(cs, 0), d - 1);
      PrefixFreeKraft(Branch(cs, 1), d - 1);
    }
  }

  lemma EmptyWordAlone(cs: seq<seq<bit>>)
    requires PrefixFree(cs) && |cs| > 1
    ensures [] !in cs
  {
    assert cs[1] in cs[1..];
    assert cs[0] != [];
    assert forall c | c in cs[1..] :: c != [];
  }
}
