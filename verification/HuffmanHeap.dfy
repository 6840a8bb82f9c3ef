/** The node pool and its array heap (heap_push, heap_pop). */
module HuffmanHeap {
  import opened Bits

  const MAX_SYMBOLS := 256
  const MAX_NODES := 512

  /** left == -1 marks a leaf; otherwise left and right index the pool. */
  datatype HNode = HNode(freq: uint32, left: int, right: int, symbol: int)

  /* ---- Heap order on sequences ---- */

  ghost predicate InPool(h: seq<nat>, ns: seq<HNode>) {
    forall k | 0 <= k < |h| :: h[k] < |ns|
  }

  function Key(h: seq<nat>, ns: seq<HNode>, k: nat): uint32
    requires k < |h| && h[k] < |ns|
  {
    ns[h[k]].freq
  }

  function Parent(k: nat): nat
    requires k >= 1
  {
    (k - 1) / 2
  }

  ghost predicate Ordered(h: seq<nat>, ns: seq<HNode>)
    requires InPool(h, ns)
  {
    forall k | 1 <= k < |h| :: Key(h, ns, Parent(k)) <= Key(h, ns, k)
  }

  /** Heap order but for entry i, which may be smaller than its parent. */
  ghost predicate OrderedAbove(h: seq<nat>, ns: seq<HNode>, i: nat)
    requires InPool(h, ns)
  {
    && (forall k | 1 <= k < |h| && k != i :: Key(h, ns, Parent(k)) <= Key(h, ns, k))
    && (1 <= i < |h| ==> forall k | 1 <= k < |h| && Parent(k) == i :: Key(h, ns, Parent(i)) <= Key(h, ns, k))
  }

  /** Heap order but for entry i, which may be larger than its children. */
  ghost predicate OrderedBelow(h: seq<nat>, ns: seq<HNode>, i: nat)
    requires InPool(h, ns)
  {
    && (forall k | 1 <= k < |h| && Parent(k) != i :: Key(h, ns, Parent(k)) <= Key(h, ns, k))
    && (1 <= i < |h| ==> forall k | 1 <= k < |h| && Parent(k) == i :: Key(h, ns, Parent(i)) <= Key(h, ns, k))
  }

  function Swapped(h: seq<nat>, i: nat, j: nat): (r: seq<nat>)
    requires i < |h| && j < |h|
    ensures |r| == |h|
  {
    h[i := h[j]][j := h[i]]
  }

  lemma SwapKeepsMembers(h: seq<nat>, i: nat, j: nat)
    requires i < |h| && j < |h|
    ensures multiset(Swapped(h, i, j)) == multiset(h)
  {
  }

  lemma SiftUpStep(h: seq<nat>, ns: seq<HNode>, i: nat)
    requires InPool(h, ns) && 1 <= i < |h| && OrderedAbove(h, ns, i)
    requires Key(h, ns, i) < Key(h, ns, Parent(i))
    ensures InPool(Swapped(h, Parent(i), i), ns)
    ensures OrderedAbove(Swapped(h, Parent(i), i), ns, Parent(i))
  {
    var p := Parent(i);
    var g := Swapped(h, p, i);
    forall k | 1 <= k < |g| && k != p
      ensures Key(g, ns, Parent(k)) <= Key(g, ns, k)
    {
      assert k != i ==> Key(h, ns, Parent(k)) <= Key(h, ns, k);
    }
    if 1 <= p {
      assert Key(h, ns, Parent(p)) <= Key(h, ns, p);
      forall k | 1 <= k < |g| && Parent(k) == p
        ensures Key(g, ns, Parent(p)) <= Key(g, ns, k)
      {
        assert k != i ==> Key(h, ns, p) <= Key(h, ns, k);
      }
    }
  }

  /** m is the smallest of entry i and its children. */
  ghost predicate SmallestOf(h: seq<nat>, ns: seq<HNode>, i: nat, m: nat)
    requires InPool(h, ns) && i < |h| && m < |h|
  {
    && (m == i || m == 2 * i + 1 || m == 2 * i + 2)
    && Key(h, ns, m) <= Key(h, ns, i)
    && (2 * i + 1 < |h| ==> Key(h, ns, m) <= Key(h, ns, 2 * i + 1))
    && (2 * i + 2 < |h| ==> Key(h, ns, m) <= Key(h, ns, 2 * i + 2))
  }

  lemma SiftDownStep(h: seq<nat>, ns: seq<HNode>, i: nat, m: nat)
    requires InPool(h, ns) && i < |h| && m < |h| && m != i
    requires OrderedBelow(h, ns, i) && SmallestOf(h, ns, i, m)
    ensures InPool(Swapped(h, i, m), ns)
    ensures OrderedBelow(Swapped(h, i, m), ns, m)
  {
    var g := Swapped(h, i, m);
    forall k | 1 <= k < |g| && Parent(k) != m
      ensures Key(g, ns, Parent(k)) <= Key(g, ns, k)
    {
      SiftDownOther(h, ns, i, m, k);
    }
    forall k | 1 <= k < |g| && Parent(k) == m
      ensures Key(g, ns, Parent(m)) <= Key(g, ns, k)
    {
      assert Key(h, ns, m) <= Key(h, ns, k);
    }
  }

  lemma SiftDownOther(h: seq<nat>, ns: seq<HNode>, i: nat, m: nat, k: nat)
    requires InPool(h, ns) && i < |h| && m < |h| && m != i
    requires OrderedBelow(h, ns, i) && SmallestOf(h, ns, i, m)
    requires 1 <= k < |h| && Parent(k) != m
    ensures InPool(Swapped(h, i, m), ns)
    ensures Key(Swapped(h, i, m), ns, Parent(k)) <= Key(Swapped(h, i, m), ns, k)
  {
    if Parent(k) == i {
      assert k == 2 * i + 1 || k == 2 * i + 2;
    } else {
      assert Key(h, ns, Parent(k)) <= Key(h, ns, k);
      if k == i {
        assert Parent(m) == i;
        assert Key(h, ns, Parent(i)) <= Key(h, ns, m);
      }
    }
  }

  lemma SiftDownDone(h: seq<nat>, ns: seq<HNode>, i: nat)
    requires InPool(h, ns) && i < |h| && OrderedBelow(h, ns, i) && SmallestOf(h, ns, i, i)
    ensures Ordered(h, ns)
  {
    forall k | 1 <= k < |h| ensures Key(h, ns, Parent(k)) <= Key(h, ns, k) {
      if Parent(k) == i {
        assert k == 2 * i + 1 || k == 2 * i + 2;
      }
    }
  }

  lemma {:induction false} RootIsMin(h: seq<nat>, ns: seq<HNode>, k: nat)
    requires InPool(h, ns) && Ordered(h, ns) && k < |h|
    ensures Key(h, ns, 0) <= Key(h, ns, k)
  {
    if k > 0 {
      RootIsMin(h, ns, Parent(k));
    }
  }

  lemma OtherNode(h: seq<nat>, ns: seq<HNode>, idx: nat, node: HNode)
    requires InPool(h, ns) && Ordered(h, ns) && idx < |ns|
    requires forall k | 0 <= k < |h| :: h[k] < idx
    ensures InPool(h, ns[idx := node]) && Ordered(h, ns[idx := node])
  {
    forall k | 1 <= k < |h|
      ensures Key(h, ns[idx := node], Parent(k)) <= Key(h, ns[idx := node], k)
    {
      assert Key(h, ns, Parent(k)) <= Key(h, ns, k);
    }
  }

  ghost predicate SmallestKey(ns: seq<HNode>, f: multiset<nat>, a: nat) {
    a in f && a < |ns| && forall x | x in f :: x < |ns| && ns[a].freq <= ns[x].freq
  }

  lemma RootIsLeast(h: seq<nat>, ns: seq<HNode>)
    requires InPool(h, ns) && Ordered(h, ns) && h != []
    ensures SmallestKey(ns, multiset(h), h[0])
  {
    forall x | x in multiset(h) ensures x < |ns| && ns[h[0]].freq <= ns[x].freq {
      var k :| 0 <= k < |h| && h[k] == x;
      RootIsMin(h, ns, k);
    }
  }

  lemma PushedLast(h: seq<nat>, ns: seq<HNode>, idx: nat)
    requires InPool(h, ns) && Ordered(h, ns) && idx < |ns|
    ensures InPool(h + [idx], ns) && OrderedAbove(h + [idx], ns, |h|)
    ensures multiset(h + [idx]) == multiset(h) + multiset{idx}
  {
    var g := h + [idx];
    forall k | 1 <= k < |g| && k != |h|
      ensures Key(g, ns, Parent(k)) <= Key(g, ns, k)
    {
      assert Key(h, ns, Parent(k)) <= Key(h, ns, k);
    }
  }

  lemma SiftUpDone(h: seq<nat>, ns: seq<HNode>, i: nat)
    requires InPool(h, ns) && OrderedAbove(h, ns, i) && i < |h|
    requires i > 0 ==> Key(h, ns, Parent(i)) <= Key(h, ns, i)
    ensures Ordered(h, ns)
  {
  }

  /* ---- The pool and heap in place ---- */

  class HeapPool {
    const nodes: array<HNode>
    var n: nat
    const heap: array<nat>
    var heapSize: nat

    ghost predicate Valid()
      reads this, nodes, heap
    {
      && nodes.Length == MAX_NODES && heap.Length == MAX_NODES
      && n <= MAX_NODES && heapSize <= MAX_NODES
      && forall k | 0 <= k < heapSize :: heap[k] < n
    }

    ghost function Entries(): (h: seq<nat>)
      requires Valid()
      reads this, nodes, heap
      ensures InPool(h, nodes[..])
    {
      heap[..heapSize]
    }

    ghost predicate IsHeap()
      requires Valid()
      reads this, nodes, heap
    {
      Ordered(Entries(), nodes[..])
    }

    constructor ()
      ensures Valid() && n == 0 && heapSize == 0
      ensures fresh(nodes) && fresh(heap)
    {
      nodes := new HNode[MAX_NODES](_ => HNode(0, -1, -1, -1));
      heap := new nat[MAX_NODES](_ => 0);
      n := 0;
      heapSize := 0;
    }

    /** Takes the next free pool slot. */
    method NewNode(node: HNode) returns (idx: nat)
      requires Valid() && IsHeap() && n < MAX_NODES
      modifies this`n, nodes
      ensures Valid() && IsHeap() && idx == old(n) && n == idx + 1
      ensures nodes[..] == old(nodes[..])[idx := node]
      ensures Entries() == old(Entries())
    {
      ghost var h, ns := Entries(), nodes[..];
      idx := n;
      nodes[n] := node;
      n := n + 1;
      assert nodes[..] == ns[idx := node];
      OtherNode(h, ns, idx, node);
    }

    method SwapEntries(i: nat, j: nat)
      requires Valid() && i < heapSize && j < heapSize
      modifies heap
      ensures Valid() && Entries() == Swapped(old(Entries()), i, j)
    {
      var tmp := heap[i];
      heap[i] := heap[j];
      heap[j] := tmp;
    }

    method Append(idx: nat)
      requires Valid() && idx < n && heapSize < MAX_NODES
      modifies this`heapSize, heap
      ensures Valid() && heapSize == old(heapSize) + 1
      ensures Entries() == old(Entries()) + [idx]
    {
      heap[heapSize] := idx;
      heapSize := heapSize + 1;
    }

    method HeapPush(idx: nat)
      requires Valid() && IsHeap() && idx < n && heapSize < MAX_NODES
      modifies this`heapSize, heap
      ensures Valid() && IsHeap() && heapSize == old(heapSize) + 1
      ensures multiset(Entries()) == multiset(old(Entries())) + multiset{idx}
    {
      var i: nat := heapSize;
      ghost var ns := nodes[..];
      ghost var h := Entries() + [idx];
      Append(idx);
      PushedLast(old(Entries()), ns, idx);
      while i > 0
        invariant Valid() && heapSize == old(heapSize) + 1 && i < heapSize
        invariant nodes[..] == ns && Entries() == h
        invariant multiset(h) == multiset(old(Entries())) + multiset{idx}
        invariant OrderedAbove(h, ns, i)
      {
        var parent: nat := (i - 1) / 2;
        if nodes[heap[parent]].freq <= nodes[heap[i]].freq {
          break;
        }
        SiftUpStep(h, ns, i);
        SwapKeepsMembers(h, parent, i);
        SwapEntries(parent, i);
        h := Swapped(h, parent, i);
        i := parent;
      }
      SiftUpDone(h, ns, i);
    }

    /** The smallest of entry i and its children, preferring i, then the left child. */
    method SmallestChild(i: nat) returns (m: nat)
      requires Valid() && (i < heapSize || i == 0)
      ensures i < heapSize ==> m < heapSize && SmallestOf(Entries(), nodes[..], i, m)
      ensures heapSize == 0 ==> m == i
    {
      var l := 2 * i + 1;
      var r := 2 * i + 2;
      m := i;
      if l < heapSize && nodes[heap[l]].freq < nodes[heap[m]].freq {
        m := l;
      }
      if r < heapSize && nodes[heap[r]].freq < nodes[heap[m]].freq {
        m := r;
      }
    }

    method SiftDown(ghost ns: seq<HNode>)
      requires Valid() && ns == nodes[..] && OrderedBelow(Entries(), ns, 0)
      modifies heap
      ensures Valid() && IsHeap() && multiset(Entries()) == multiset(old(Entries()))
    {
      var i: nat := 0;
      ghost var h := Entries();
      while true
        invariant Valid() && (i < heapSize || heapSize == 0 == i)
        invariant nodes[..] == ns && Entries() == h
        invariant multiset(h) == multiset(old(Entries()))
        invariant OrderedBelow(h, ns, i)
        decreases heapSize - i
      {
        var m := SmallestChild(i);
        if m == i {
          break;
        }
        SiftDownStep(h, ns, i, m);
        SwapKeepsMembers(h, i, m);
        SwapEntries(i, m);
        h := Swapped(h, i, m);
        i := m;
      }
      if heapSize > 0 {
        SiftDownDone(h, ns, i);
      }
    }

    method DropRoot()
      requires Valid() && heapSize > 0
      modifies this`heapSize, heap
      ensures Valid() && heapSize == old(heapSize) - 1
      ensures Entries() == LastToRoot(old(Entries()))
    {
      heapSize := heapSize - 1;
      heap[0] := heap[heapSize];
    }

    method HeapPop() returns (ret: nat)
      requires Valid() && IsHeap() && heapSize > 0
      modifies this`heapSize, heap
      ensures Valid() && IsHeap() && heapSize == old(heapSize) - 1
      ensures SmallestKey(nodes[..], multiset(old(Entries())), ret) && ret < n
      ensures multiset(Entries()) == multiset(old(Entries())) - multiset{ret}
    {
      ghost var h := Entries();
      ghost var ns := nodes[..];
      ret := heap[0];
      RootIsLeast(h, ns);
      MoveLast(h);
      BelowRoot(h, ns);
      DropRoot();
      SiftDown(ns);
    }
  }

  /** What is left when the last entry replaces the root. */
  function LastToRoot(h: seq<nat>): (r: seq<nat>)
    requires h != []
  {
    if |h| == 1 then [] else [h[|h| - 1]] + h[1..|h| - 1]
  }

  lemma MoveLast(h: seq<nat>)
    requires h != []
    ensures multiset(LastToRoot(h)) == multiset(h) - multiset{h[0]}
  {
    if |h| == 1 {
      assert h == [h[0]];
    } else {
      assert h == [h[0]] + h[1..|h| - 1] + [h[|h| - 1]];
    }
  }

  lemma BelowRoot(h: seq<nat>, ns: seq<HNode>)
    requires h != [] && InPool(h, ns) && Ordered(h, ns)
    ensures InPool(LastToRoot(h), ns) && OrderedBelow(LastToRoot(h), ns, 0)
  {
    var g := LastToRoot(h);
    forall k | 1 <= k < |g| && Parent(k) != 0
      ensures Key(g, ns, Parent(k)) <= Key(g, ns, k)
    {
      assert Key(h, ns, Parent(k)) <= Key(h, ns, k);
    }
  }
}
