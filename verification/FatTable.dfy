/** The packed 12-bit allocation table and the cluster chains in it. */
module FatTable {
  import opened Bits

  const TOTAL_CLUSTERS := 121
  const LAST_CLUSTER := 122
  const BAD_CLUSTER := 0xFF7
  const EOC := 0xFFF
  const SLOTS := 64

  type Sector = s: seq<byte> | |s| == 512 witness seq(512, _ => 0)

  /** Entry c: two entries share three bytes. */
  function GetEntry(buf: Sector, c: nat): (v: nat)
    requires c <= LAST_CLUSTER
    ensures v < 4096
  {
    var off := c * 3 / 2;
    var val := buf[off] as int + 256 * (buf[off + 1] as int);
    if c % 2 == 1 then val / 16 else val % 4096
  }

  function SetEntry(buf: Sector, c: nat, v: nat): Sector
    requires c <= LAST_CLUSTER && v < 4096
  {
    var off := c * 3 / 2;
    if c % 2 == 1 then
      buf[off := (buf[off] as int) % 16 + v % 16 * 16][off + 1 := v / 16]
    else
      buf[off := v % 256][off + 1 := (buf[off + 1] as int) / 16 * 16 + v / 256]
  }

  /** Setting one entry changes no other, although neighbours share a byte. */
  lemma GetSet(buf: Sector, c: nat, v: nat, d: nat)
    requires c <= LAST_CLUSTER && d <= LAST_CLUSTER && v < 4096
    ensures GetEntry(SetEntry(buf, c, v), d) == if d == c then v else GetEntry(buf, d)
  {
    if d == c {
      GetSame(buf, c, v);
    } else if d / 2 == c / 2 {
      GetPartner(buf, c, v, d);
    } else {
      assert c * 3 / 2 + 1 < d * 3 / 2 || d * 3 / 2 + 1 < c * 3 / 2;
    }
  }

  lemma GetSame(buf: Sector, c: nat, v: nat)
    requires c <= LAST_CLUSTER && v < 4096
    ensures GetEntry(SetEntry(buf, c, v), c) == v
  {
  }

  lemma GetPartner(buf: Sector, c: nat, v: nat, d: nat)
    requires c <= LAST_CLUSTER && d <= LAST_CLUSTER && v < 4096 && d != c && d / 2 == c / 2
    ensures GetEntry(SetEntry(buf, c, v), d) == GetEntry(buf, d)
  {
    var off := 3 * (c / 2);
    var t := SetEntry(buf, c, v);
    var x, y: byte := buf[off], buf[off + 1];
    if c % 2 == 1 {
      assert c * 3 / 2 == off + 1 && d * 3 / 2 == off && t[off] == x;
      LowNibble(y, v);
      assert t[off + 1] == (y as int) % 16 + v % 16 * 16;
      LowTwelve(x, y, t[off + 1]);
    } else {
      assert c * 3 / 2 == off && d * 3 / 2 == off + 1 && t[off + 2] == buf[off + 2];
      HighNibble(y, v);
      assert t[off + 1] == (y as int) / 16 * 16 + v / 256;
      HighTwelve(y, t[off + 1], buf[off + 2]);
    }
  }

  lemma LowNibble(y: byte, v: nat)
    ensures ((y as int) % 16 + v % 16 * 16) % 16 == (y as int) % 16
  {
    DivUnique((y as int) % 16 + v % 16 * 16, 16, v % 16, (y as int) % 16);
  }

  lemma HighNibble(y: byte, v: nat)
    requires v < 4096
    ensures ((y as int) / 16 * 16 + v / 256) / 16 == (y as int) / 16
  {
    DivUnique((y as int) / 16 * 16 + v / 256, 16, (y as int) / 16, v / 256);
  }

  lemma LowTwelve(x: byte, y: byte, z: byte)
    requires (y as int) % 16 == (z as int) % 16
    ensures (x as int + 256 * (y as int)) % 4096 == (x as int + 256 * (z as int)) % 4096
  {
    DivUnique(x as int + 256 * (y as int), 4096, (y as int) / 16, x as int + 256 * ((y as int) % 16));
    DivUnique(x as int + 256 * (z as int), 4096, (z as int) / 16, x as int + 256 * ((y as int) % 16));
  }

  lemma HighTwelve(y: byte, z: byte, w: byte)
    requires (y as int) / 16 == (z as int) / 16
    ensures (y as int + 256 * (w as int)) / 16 == (z as int + 256 * (w as int)) / 16
  {
    DivUnique(y as int + 256 * (w as int), 16, (y as int) / 16 + 16 * (w as int), (y as int) % 16);
    DivUnique(z as int + 256 * (w as int), 16, (y as int) / 16 + 16 * (w as int), (z as int) % 16);
  }

  /* ---- Chains ---- */

  predicate IsCluster(c: nat) {
    2 <= c <= LAST_CLUSTER
  }

  /** Entry of the last cluster, or of the next one. */
  function Follower(ch: seq<nat>, i: nat): nat
    requires i < |ch|
  {
    if i + 1 < |ch| then ch[i + 1] else EOC
  }

  ghost predicate IsChain(buf: Sector, ch: seq<nat>) {
    forall i | 0 <= i < |ch| :: IsCluster(ch[i]) && GetEntry(buf, ch[i]) == Follower(ch, i)
  }

  /** No cluster is in two chains, or twice in one. */
  ghost predicate Disjoint(chains: seq<seq<nat>>) {
    forall k, i, k', i' | 0 <= k < |chains| && 0 <= i < |chains[k]| && 0 <= k' < |chains| && 0 <= i' < |chains[k']| ::
      chains[k][i] == chains[k'][i'] ==> k == k' && i == i'
  }

  /** Free clusters below n. */
  function FreeCount(buf: Sector, n: nat): nat
    requires n <= LAST_CLUSTER + 1
  {
    if n <= 2 then 0 else FreeCount(buf, n - 1) + (if GetEntry(buf, n - 1) == 0 then 1 else 0)
  }

  function SumLen(chains: seq<seq<nat>>): nat {
    if chains == [] then 0 else SumLen(chains[..|chains| - 1]) + |chains[|chains| - 1]|
  }

  /** A link is free, another cluster or the end mark. */
  predicate LinkOk(v: nat) {
    v == 0 || IsCluster(v) || v == EOC
  }

  /** The table holds exactly these chains, pairwise disjoint, and every other cluster is free. */
  ghost predicate TableOk(buf: Sector, chains: seq<seq<nat>>) {
    && |chains| == SLOTS
    && (forall k | 0 <= k < SLOTS :: IsChain(buf, chains[k]))
    && Disjoint(chains)
    && (forall c | 2 <= c <= LAST_CLUSTER :: LinkOk(GetEntry(buf, c)))
    && FreeCount(buf, LAST_CLUSTER + 1) + SumLen(chains) == TOTAL_CLUSTERS
  }

  lemma {:induction false} FreeCountSame(buf: Sector, buf': Sector, n: nat)
    requires n <= LAST_CLUSTER + 1 && forall c | 2 <= c < n :: GetEntry(buf, c) == 0 <==> GetEntry(buf', c) == 0
    ensures FreeCount(buf', n) == FreeCount(buf, n)
  {
    if n > 2 {
      FreeCountSame(buf, buf', n - 1);
    }
  }

  lemma {:induction false} FreeCountSet(buf: Sector, c: nat, v: nat, n: nat)
    requires IsCluster(c) && v < 4096 && c < n <= LAST_CLUSTER + 1
    ensures FreeCount(SetEntry(buf, c, v), n) ==
            FreeCount(buf, n) - (if GetEntry(buf, c) == 0 then 1 else 0) + (if v == 0 then 1 else 0)
    decreases n
  {
    hide GetEntry, SetEntry;
    GetSet(buf, c, v, n - 1);
    if n - 1 == c {
      forall d | 2 <= d < n - 1 ensures GetEntry(SetEntry(buf, c, v), d) == GetEntry(buf, d) {
        GetSet(buf, c, v, d);
      }
      FreeCountSame(buf, SetEntry(buf, c, v), n - 1);
    } else {
      FreeCountSet(buf, c, v, n - 1);
    }
  }

  lemma {:induction false} SumLenSet(chains: seq<seq<nat>>, k: nat, ch: seq<nat>)
    requires k < |chains|
    ensures SumLen(chains[k := ch]) == SumLen(chains) - |chains[k]| + |ch|
  {
    var n := |chains| - 1;
    if k == n {
      assert chains[k := ch][..n] == chains[..n];
    } else {
      assert chains[k := ch][..n] == chains[..n][k := ch];
      SumLenSet(chains[..n], k, ch);
    }
  }

  /** A chain outside which an entry is changed. */
  lemma ChainKept(buf: Sector, c: nat, v: nat, ch: seq<nat>)
    requires IsChain(buf, ch) && IsCluster(c) && v < 4096 && c !in ch
    ensures IsChain(SetEntry(buf, c, v), ch)
  {
    hide GetEntry, SetEntry;
    forall i | 0 <= i < |ch| ensures GetEntry(SetEntry(buf, c, v), ch[i]) == Follower(ch, i) {
      GetSet(buf, c, v, ch[i]);
    }
  }

  lemma LinkNotFree(buf: Sector, ch: seq<nat>, i: nat)
    requires IsChain(buf, ch) && i < |ch|
    ensures IsCluster(ch[i]) && GetEntry(buf, ch[i]) != 0
  {
    hide GetEntry;
    assert i + 1 < |ch| ==> IsCluster(ch[i + 1]);
  }

  /** A free cluster is in no chain. */
  lemma FreeOutside(buf: Sector, chains: seq<seq<nat>>, c: nat, k: nat)
    requires TableOk(buf, chains) && IsCluster(c) && GetEntry(buf, c) == 0 && k < SLOTS
    ensures c !in chains[k]
  {
    hide GetEntry, FreeCount, SumLen;
    assert IsChain(buf, chains[k]);
    forall i | 0 <= i < |chains[k]| ensures chains[k][i] != c {
      LinkNotFree(buf, chains[k], i);
    }
  }

  lemma LinksKept(buf: Sector, c: nat, v: nat)
    requires IsCluster(c) && LinkOk(v) && forall d | 2 <= d <= LAST_CLUSTER :: LinkOk(GetEntry(buf, d))
    ensures forall d | 2 <= d <= LAST_CLUSTER :: LinkOk(GetEntry(SetEntry(buf, c, v), d))
  {
    hide GetEntry, SetEntry;
    forall d | 2 <= d <= LAST_CLUSTER ensures LinkOk(GetEntry(SetEntry(buf, c, v), d)) {
      GetSet(buf, c, v, d);
    }
  }

  /** The chain of k with c at its end. */
  function Extended(chains: seq<seq<nat>>, k: nat, c: nat): seq<seq<nat>>
    requires k < |chains|
  {
    chains[k := chains[k] + [c]]
  }

  lemma ExtendedDisjoint(chains: seq<seq<nat>>, k: nat, c: nat)
    requires k < |chains| && Disjoint(chains) && forall j | 0 <= j < |chains| :: c !in chains[j]
    ensures Disjoint(Extended(chains, k, c))
  {
  }

  /** Taking a free cluster as the first of an empty chain. */
  lemma StartChain(buf: Sector, chains: seq<seq<nat>>, k: nat, c: nat)
    requires TableOk(buf, chains) && k < SLOTS && chains[k] == [] && IsCluster(c) && GetEntry(buf, c) == 0
    ensures TableOk(SetEntry(buf, c, EOC), Extended(chains, k, c))
  {
    hide GetEntry, SetEntry, FreeCount, SumLen, Disjoint;
    var buf' := SetEntry(buf, c, EOC);
    forall j | 0 <= j < SLOTS ensures c !in chains[j] && IsChain(buf', chains[j]) {
      FreeOutside(buf, chains, c, j);
      ChainKept(buf, c, EOC, chains[j]);
    }
    ExtendedDisjoint(chains, k, c);
    LinksKept(buf, c, EOC);
    FreeCountSet(buf, c, EOC, LAST_CLUSTER + 1);
    SumLenSet(chains, k, [c]);
    GetSet(buf, c, EOC, c);
    assert chains[k] + [c] == [c];
  }

  /** A cluster of chain k is in no other chain. */
  lemma OnlyIn(chains: seq<seq<nat>>, k: nat, i: nat, j: nat)
    requires Disjoint(chains) && k < |chains| && i < |chains[k]| && j < |chains| && j != k
    ensures chains[k][i] !in chains[j]
  {
    forall n | 0 <= n < |chains[j]| ensures chains[j][n] != chains[k][i] {
    }
  }

  lemma OnceIn(chains: seq<seq<nat>>, k: nat, i: nat, n: nat)
    requires Disjoint(chains) && k < |chains| && i < |chains[k]| && n < |chains[k]| && i != n
    ensures chains[k][i] != chains[k][n]
  {
  }

  /** Linking a fresh cluster behind the last one of a chain. */
  lemma ExtendChain(buf: Sector, chains: seq<seq<nat>>, k: nat, c: nat, last: nat)
    requires TableOk(buf, chains) && k < SLOTS && chains[k] != [] && last == chains[k][|chains[k]| - 1]
    requires IsCluster(c) && GetEntry(buf, c) == 0
    ensures IsCluster(last) && TableOk(SetEntry(SetEntry(buf, c, EOC), last, c), Extended(chains, k, c))
  {
    hide GetEntry, SetEntry, FreeCount, SumLen, Disjoint, IsChain;
    var n := |chains[k]| - 1;
    LastLink(buf, chains[k]);
    var buf' := SetEntry(buf, c, EOC);
    var buf'' := SetEntry(buf', last, c);
    forall j | 0 <= j < SLOTS ensures c !in chains[j] && (j != k ==> IsChain(buf'', chains[j])) {
      FreeOutside(buf, chains, c, j);
      ChainKept(buf, c, EOC, chains[j]);
      if j != k {
        OnlyIn(chains, k, n, j);
        ChainKept(buf', last, c, chains[j]);
      }
    }
    forall i | 0 <= i < n ensures chains[k][i] != last {
      OnceIn(chains, k, i, n);
    }
    LinkedChain(buf, chains[k], c);
    ExtendedDisjoint(chains, k, c);
    LinksKept(buf, c, EOC);
    LinksKept(buf', last, c);
    FreeCountSet(buf, c, EOC, LAST_CLUSTER + 1);
    FreeCountSet(buf', last, c, LAST_CLUSTER + 1);
    GetSet(buf, c, EOC, last);
    SumLenSet(chains, k, chains[k] + [c]);
  }

  lemma LastLink(buf: Sector, ch: seq<nat>)
    requires IsChain(buf, ch) && ch != []
    ensures IsCluster(ch[|ch| - 1]) && GetEntry(buf, ch[|ch| - 1]) == EOC
  {
  }

  lemma LinkedChain(buf: Sector, ch: seq<nat>, c: nat)
    requires IsChain(buf, ch) && ch != [] && IsCluster(c) && c !in ch
    requires forall i | 0 <= i < |ch| - 1 :: ch[i] != ch[|ch| - 1]
    ensures IsCluster(ch[|ch| - 1])
    ensures IsChain(SetEntry(SetEntry(buf, c, EOC), ch[|ch| - 1], c), ch + [c])
  {
    hide GetEntry, SetEntry;
    var last := ch[|ch| - 1];
    var buf' := SetEntry(buf, c, EOC);
    var buf'' := SetEntry(buf', last, c);
    var more := ch + [c];
    forall i | 0 <= i < |more| ensures IsCluster(more[i]) && GetEntry(buf'', more[i]) == Follower(more, i) {
      GetSet(buf, c, EOC, more[i]);
      GetSet(buf', last, c, more[i]);
      assert i < |ch| ==> more[i] == ch[i] && IsCluster(ch[i]);
    }
  }

  /** Giving back the first cluster of a chain. */
  lemma FreeHead(buf: Sector, chains: seq<seq<nat>>, k: nat)
    requires TableOk(buf, chains) && k < SLOTS && chains[k] != []
    ensures IsCluster(chains[k][0]) && TableOk(SetEntry(buf, chains[k][0], 0), chains[k := chains[k][1..]])
    ensures GetEntry(buf, chains[k][0]) == Follower(chains[k], 0)
  {
    hide GetEntry, SetEntry, FreeCount, SumLen, Disjoint, IsChain;
    var c := chains[k][0];
    var rest := chains[k][1..];
    FirstLink(buf, chains[k]);
    forall j | 0 <= j < SLOTS && j != k ensures IsChain(SetEntry(buf, c, 0), chains[j]) {
      OnlyIn(chains, k, 0, j);
      ChainKept(buf, c, 0, chains[j]);
    }
    forall i | 0 <= i < |rest| ensures rest[i] != c {
      assert rest[i] == chains[k][i + 1];
      OnceIn(chains, k, 0, i + 1);
    }
    ChainKept(buf, c, 0, rest);
    ShorterDisjoint(chains, k);
    LinksKept(buf, c, 0);
    FreeCountSet(buf, c, 0, LAST_CLUSTER + 1);
    SumLenSet(chains, k, rest);
  }

  lemma FirstLink(buf: Sector, ch: seq<nat>)
    requires IsChain(buf, ch) && ch != []
    ensures IsCluster(ch[0]) && GetEntry(buf, ch[0]) == Follower(ch, 0) && GetEntry(buf, ch[0]) != 0
    ensures IsChain(buf, ch[1..])
  {
    hide GetEntry;
    var rest := ch[1..];
    assert ch[0] == ch[0] && (|ch| > 1 ==> IsCluster(ch[1]));
    forall i | 0 <= i < |rest| ensures IsCluster(rest[i]) && GetEntry(buf, rest[i]) == Follower(rest, i) {
      assert rest[i] == ch[i + 1];
    }
  }

  lemma ShorterDisjoint(chains: seq<seq<nat>>, k: nat)
    requires Disjoint(chains) && k < |chains| && chains[k] != []
    ensures Disjoint(chains[k := chains[k][1..]])
  {
    var less := chains[k := chains[k][1..]];
    forall j, i, j', i' | 0 <= j < |less| && 0 <= i < |less[j]| && 0 <= j' < |less| && 0 <= i' < |less[j']| &&
                          less[j][i] == less[j'][i']
      ensures j == j' && i == i'
    {
      var n, n' := if j == k then i + 1 else i, if j' == k then i' + 1 else i';
      assert chains[j][n] == chains[j'][n'];
    }
  }

  /** An empty table. */
  lemma EmptyTable(buf: Sector, chains: seq<seq<nat>>)
    requires forall c | 2 <= c <= LAST_CLUSTER :: GetEntry(buf, c) == 0
    requires |chains| == SLOTS && forall k | 0 <= k < SLOTS :: chains[k] == []
    ensures TableOk(buf, chains)
  {
    hide GetEntry;
    AllFree(buf, LAST_CLUSTER + 1);
    NoLength(chains);
  }

  lemma {:induction false} AllFree(buf: Sector, n: nat)
    requires 2 <= n <= LAST_CLUSTER + 1 && forall c | 2 <= c < n :: GetEntry(buf, c) == 0
    ensures FreeCount(buf, n) == n - 2
  {
    if n > 2 {
      AllFree(buf, n - 1);
    }
  }

  lemma {:induction false} NoLength(chains: seq<seq<nat>>)
    requires forall k | 0 <= k < |chains| :: chains[k] == []
    ensures SumLen(chains) == 0
  {
    if chains != [] {
      NoLength(chains[..|chains| - 1]);
    }
  }

  lemma {:induction false} FreeExists(buf: Sector, n: nat)
    requires n <= LAST_CLUSTER + 1 && forall c | 2 <= c < n :: GetEntry(buf, c) != 0
    ensures FreeCount(buf, n) == 0
  {
    if n > 2 {
      FreeExists(buf, n - 1);
    }
  }

  lemma {:induction false} SomeFree(buf: Sector, c: nat, n: nat)
    requires IsCluster(c) && c < n <= LAST_CLUSTER + 1 && GetEntry(buf, c) == 0
    ensures FreeCount(buf, n) >= 1
    decreases n
  {
    if c < n - 1 {
      SomeFree(buf, c, n - 1);
    }
  }

  /* ---- Walking the table ---- */

  /** The clusters met from c on by following the entries, at most n of them. */
  function Follow(buf: Sector, c: nat, n: nat): seq<nat>
    decreases n
  {
    if !IsCluster(c) || n == 0 then [] else [c] + Follow(buf, GetEntry(buf, c), n - 1)
  }

  /** Walking from the first cluster visits the chain and stops at its end. */
  lemma {:induction false} FollowIsChain(buf: Sector, ch: seq<nat>, n: nat)
    requires IsChain(buf, ch) && |ch| <= n
    ensures Follow(buf, if ch == [] then 0 else ch[0], n) == ch
    decreases n
  {
    hide GetEntry;
    if ch != [] {
      FirstLink(buf, ch);
      FollowIsChain(buf, ch[1..], n - 1);
      assert ch == [ch[0]] + ch[1..];
    }
  }

  lemma {:induction false} LengthInSum(chains: seq<seq<nat>>, k: nat)
    requires k < |chains|
    ensures |chains[k]| <= SumLen(chains)
  {
    if k < |chains| - 1 {
      LengthInSum(chains[..|chains| - 1], k);
    }
  }
}
