/** The code lengths at the head of a dynamic block (section 3.2.7 of RFC 1951). */
module InflateHeader {
  import opened Bits
  import opened InflateReader
  import opened InflateTable

  const MAXLCODES := 288

  const ORDER := [16, 17, 18, 0, 8, 7, 9, 6, 10, 5, 11, 4, 12, 3, 13, 2, 14, 1, 15]
  const PLACE := [3, 17, 15, 13, 11, 9, 7, 5, 4, 6, 8, 10, 12, 14, 16, 18, 0, 1, 2]

  /** The symbol whose length is the i-th one sent. */
  function Order(i: nat): (s: nat)
    requires i < 19
    ensures s < 19 && Place(s) == i
  {
    ORDER[i]
  }

  /** Where the length of symbol s is sent. */
  function Place(s: nat): (i: nat)
    requires s < 19
    ensures i < 19
  {
    PLACE[s]
  }

  lemma PlaceOfOrder(s: nat, i: nat)
    requires s < 19 && i < 19
    ensures Place(s) == i <==> Order(i) == s
  {
  }

  /** The run lengths come first, then 0, then the middle lengths outwards: 8, 7, 9, 6, ... 1, 15. */
  lemma OrderIs(i: nat)
    requires i < 19
    ensures Order(i) == if i < 3 then 16 + i else if i == 3 then 0 else if i % 2 == 0 then 6 + i / 2 else 9 - i / 2
  {
  }

  /* ---- Code-length code ---- */

  function NoLengths(): (r: seq<int>)
    ensures |r| == 19 && forall k | 0 <= k < 19 :: r[k] == 0
  {
    seq(19, _ => 0)
  }

  /** The lengths read from the first n groups of three bits. */
  ghost function ReadClLengths(bs: seq<bit>, n: nat): (r: seq<int>)
    requires n <= 19
    ensures |r| == 19
  {
    if n == 0 then NoLengths()
    else ReadClLengths(bs, n - 1)[Order(n - 1) := ValueLsb(Take(Drop(bs, 3 * (n - 1)), 3))]
  }

  lemma ReadClStep(bs: seq<bit>, i: nat)
    requires i < 19
    ensures ReadClLengths(bs, i + 1) == ReadClLengths(bs, i)[Order(i) := ValueLsb(Take(Drop(bs, 3 * i), 3))]
    ensures ReadClLengths(bs, 0) == NoLengths()
  {
    hide Order, ValueLsb, Take, Drop, NoLengths;
  }

  /* ---- Literal/length and distance code lengths ---- */

  function Zeros(n: nat): (r: seq<int>)
    ensures |r| == n
  {
    seq(n, _ => 0)
  }

  function Copies(v: int, n: nat): (r: seq<int>)
    ensures |r| == n
  {
    seq(n, _ => v)
  }

  /** At most n further entries, as many as total leaves room for. */
  function Room(acc: seq<int>, total: nat, n: nat): nat {
    if |acc| + n <= total then n else if |acc| <= total then total - |acc| else 0
  }

  /** A finished list of lengths, an error, or the bits and lengths to go on with. */
  datatype LenStep = LenStop(code: int) | LenMore(rest: seq<bit>, acc: seq<int>)

  datatype LenRead = LenOk(lengths: seq<int>, rest: seq<bit>) | LenFail(code: int)

  ghost function Extra(bs: seq<bit>, n: nat): nat {
    ValueLsb(Take(bs, n))
  }

  /** n bits must be there for the entries they count. */
  ghost function Repeated(bs: seq<bit>, n: nat, acc: seq<int>): (s: LenStep)
    ensures s.LenMore? ==> |s.rest| <= |bs|
    ensures s.LenStop? ==> s.code != 0
  {
    if n > |bs| then LenStop(ERR_TRUNC) else LenMore(Drop(bs, n), acc)
  }

  /** The entries stated by symbol sym, with its extra bits at the head of bs. */
  ghost function LenItemStep(sym: int, total: nat, bs: seq<bit>, acc: seq<int>): (s: LenStep)
    ensures s.LenMore? ==> |s.rest| <= |bs|
    ensures s.LenStop? ==> s.code != 0
  {
    if sym < 16 then LenMore(bs, acc + [sym])
    else if sym == 16 then
      if acc == [] then LenStop(ERR_BADCODE)
      else Repeated(bs, 2, acc + Copies(acc[|acc| - 1], Room(acc, total, Extra(bs, 2) + 3)))
    else if sym == 17 then Repeated(bs, 3, acc + Zeros(Room(acc, total, Extra(bs, 3) + 3)))
    else Repeated(bs, 7, acc + Zeros(Room(acc, total, Extra(bs, 7) + 11)))
  }

  ghost function LengthsStep(cl: seq<int>, total: nat, bs: seq<bit>, acc: seq<int>): (s: LenStep)
    ensures s.LenMore? ==> |s.rest| < |bs|
    ensures s.LenStop? ==> s.code != 0
  {
    var d := DecodeSym(cl, bs);
    if d.sym == -1 then LenStop(ERR_BADCODE)
    else if d.used > |bs| then LenStop(ERR_TRUNC)
    else LenItemStep(d.sym, total, Drop(bs, d.used), acc)
  }

  ghost function ReadLengths(cl: seq<int>, total: nat, bs: seq<bit>, acc: seq<int>): (r: LenRead)
    requires |acc| <= total
    ensures r.LenOk? ==> |r.lengths| == total && |r.rest| <= |bs|
    ensures r.LenFail? ==> r.code != 0
    decreases |bs|
  {
    if |acc| == total then LenOk(acc, bs)
    else
      match LengthsStep(cl, total, bs, acc)
      case LenStop(code) => LenFail(code)
      case LenMore(rest, acc') =>
        StepFits(cl, total, bs, acc);
        ReadLengths(cl, total, rest, acc')
  }

  lemma StepFits(cl: seq<int>, total: nat, bs: seq<bit>, acc: seq<int>)
    requires |acc| < total
    ensures var s := LengthsStep(cl, total, bs, acc); s.LenMore? ==> |s.acc| <= total
  {
  }

  /* ---- Encodings of the lengths ---- */

  /** One length, or a run given by its extra bits. */
  datatype LenItem = Len(l: nat) | Again(x: nat) | Few(x: nat) | Many(x: nat)

  function ItemSym(item: LenItem): nat {
    match item
    case Len(l) => l
    case Again(_) => 16
    case Few(_) => 17
    case Many(_) => 18
  }

  function ItemExtra(item: LenItem): nat {
    match item
    case Len(_) => 0
    case Again(_) => 2
    case Few(_) => 3
    case Many(_) => 7
  }

  function ItemValue(item: LenItem): nat {
    match item
    case Len(_) => 0
    case Again(x) => x
    case Few(x) => x
    case Many(x) => x
  }

  ghost predicate ItemOk(cl: seq<int>, item: LenItem) {
    && (item.Len? ==> item.l < 16)
    && Coded(cl, ItemSym(item)) && ItemValue(item) < Pow2(ItemExtra(item))
  }

  function ItemBits(cl: seq<int>, item: LenItem, rest: seq<bit>): seq<bit>
    requires Coded(cl, ItemSym(item))
  {
    CodeWord(cl, ItemSym(item)) + (LowBits(ItemValue(item), ItemExtra(item)) + rest)
  }

  /** The entries after one item; runs never go past total. */
  function ItemAdd(item: LenItem, total: nat, acc: seq<int>): seq<int>
    requires item.Again? ==> acc != []
  {
    match item
    case Len(l) => acc + [l]
    case Again(x) => acc + Copies(acc[|acc| - 1], Room(acc, total, x + 3))
    case Few(x) => acc + Zeros(Room(acc, total, x + 3))
    case Many(x) => acc + Zeros(Room(acc, total, x + 11))
  }

  ghost predicate ItemsOk(cl: seq<int>, items: seq<LenItem>) {
    forall k | 0 <= k < |items| :: ItemOk(cl, items[k])
  }

  /** The items state exactly total entries, the first ones being acc. */
  ghost predicate ItemsFill(items: seq<LenItem>, total: nat, acc: seq<int>)
    decreases |items|
  {
    if items == [] then |acc| == total
    else
      && |acc| < total && (items[0].Again? ==> acc != [])
      && ItemsFill(items[1..], total, ItemAdd(items[0], total, acc))
  }

  ghost function ItemsLengths(items: seq<LenItem>, total: nat, acc: seq<int>): (r: seq<int>)
    requires ItemsFill(items, total, acc)
    ensures |r| == total
    decreases |items|
  {
    if items == [] then acc else ItemsLengths(items[1..], total, ItemAdd(items[0], total, acc))
  }

  ghost function ItemsBits(cl: seq<int>, items: seq<LenItem>, rest: seq<bit>): seq<bit>
    requires ItemsOk(cl, items)
    decreases |items|
  {
    if items == [] then rest else ItemBits(cl, items[0], ItemsBits(cl, items[1..], rest))
  }

  /** A run repeats the last length 3 to 6 times, or zero 3 to 10 or 11 to 138 times. */
  lemma RunIs(item: LenItem, total: nat, acc: seq<int>)
    requires !item.Len? && ItemValue(item) < Pow2(ItemExtra(item)) && (item.Again? ==> acc != [])
    requires |acc| + 138 <= total
    ensures var r := ItemAdd(item, total, acc);
            && acc <= r && (forall k | |acc| <= k < |r| :: r[k] == if item.Again? then acc[|acc| - 1] else 0)
            && (item.Again? ==> 3 <= |r| - |acc| <= 6) && (item.Few? ==> 3 <= |r| - |acc| <= 10)
            && (item.Many? ==> 11 <= |r| - |acc| <= 138)
  {
    assert Pow2(2) == 4 && Pow2(3) == 8 && Pow2(7) == 128;
    var n := ItemValue(item) + if item.Many? then 11 else 3;
    assert ItemAdd(item, total, acc) == acc + Copies(if item.Again? then acc[|acc| - 1] else 0, n);
  }

  /** Every run of 3 to 138 zeros and every repetition of 3 to 6 has an item. */
  lemma RunHasItem(n: nat, total: nat, acc: seq<int>) returns (item: LenItem)
    requires 3 <= n <= 138 && |acc| + n <= total
    ensures !item.Len? && !item.Again? && ItemValue(item) < Pow2(ItemExtra(item))
    ensures |ItemAdd(item, total, acc)| == |acc| + n
    ensures n <= 6 && acc != [] ==> n - 3 < Pow2(ItemExtra(Again(n - 3)))
    ensures n <= 6 && acc != [] ==> |ItemAdd(Again(n - 3), total, acc)| == |acc| + n
  {
    assert Pow2(2) == 4 && Pow2(3) == 8 && Pow2(7) == 128;
    item := if n <= 10 then Few(n - 3) else Many(n - 11);
  }

  /** Decoding the bits of an item adds its entries. */
  lemma ReadsItem(cl: seq<int>, item: LenItem, total: nat, acc: seq<int>, rest: seq<bit>)
    requires Accepted(cl) && ItemOk(cl, item) && (item.Again? ==> acc != [])
    ensures LengthsStep(cl, total, ItemBits(cl, item, rest), acc) == LenMore(rest, ItemAdd(item, total, acc))
  {
    var extra := LowBits(ItemValue(item), ItemExtra(item)) + rest;
    DecodesCodeWord(cl, ItemSym(item), extra);
    TakeLow(CodeWord(cl, ItemSym(item)), extra);
    ReadsLow(ItemValue(item), ItemExtra(item), rest);
    assert LowBits(0, 0) + rest == rest;
  }

  lemma {:induction false} ReadsItems(cl: seq<int>, items: seq<LenItem>, total: nat, acc: seq<int>, rest: seq<bit>)
    requires Accepted(cl) && ItemsOk(cl, items) && |acc| <= total && ItemsFill(items, total, acc)
    ensures ReadLengths(cl, total, ItemsBits(cl, items, rest), acc) == LenOk(ItemsLengths(items, total, acc), rest)
    decreases |items|
  {
    if items != [] {
      var bs := ItemsBits(cl, items, rest);
      ReadsItem(cl, items[0], total, acc, ItemsBits(cl, items[1..], rest));
      StepFits(cl, total, bs, acc);
      ReadsItems(cl, items[1..], total, ItemAdd(items[0], total, acc), rest);
    }
  }

  /** Entries that were read came from items. */
  lemma ItemWasRead(cl: seq<int>, total: nat, bs: seq<bit>, acc: seq<int>) returns (item: LenItem)
    requires |cl| == 19 && LengthsStep(cl, total, bs, acc).LenMore?
    ensures ItemOk(cl, item) && (item.Again? ==> acc != [])
    ensures var s := LengthsStep(cl, total, bs, acc);
            s.acc == ItemAdd(item, total, acc) && bs == ItemBits(cl, item, s.rest)
  {
    var d := DecodeSym(cl, bs);
    DecodedCodeWord(cl, bs);
    var bs1 := Drop(bs, d.used);
    assert bs == CodeWord(cl, d.sym) + bs1;
    if d.sym < 16 {
      item := Len(d.sym);
      assert LowBits(0, 0) + bs1 == bs1;
    } else if d.sym == 16 {
      item := Again(Extra(bs1, 2));
      LowWasRead(bs1, 2);
    } else if d.sym == 17 {
      item := Few(Extra(bs1, 3));
      LowWasRead(bs1, 3);
    } else {
      item := Many(Extra(bs1, 7));
      LowWasRead(bs1, 7);
    }
  }

  lemma {:induction false} LengthsWereItems(cl: seq<int>, total: nat, bs: seq<bit>, acc: seq<int>)
    returns (items: seq<LenItem>)
    requires |cl| == 19 && |acc| <= total && ReadLengths(cl, total, bs, acc).LenOk?
    ensures ItemsOk(cl, items) && ItemsFill(items, total, acc)
    ensures var r := ReadLengths(cl, total, bs, acc);
            r.lengths == ItemsLengths(items, total, acc) && bs == ItemsBits(cl, items, r.rest)
    decreases |bs|
  {
    if |acc| == total {
      items := [];
    } else {
      var s := LengthsStep(cl, total, bs, acc);
      StepFits(cl, total, bs, acc);
      var item := ItemWasRead(cl, total, bs, acc);
      var more := LengthsWereItems(cl, total, s.rest, s.acc);
      items := [item] + more;
      assert items[1..] == more;
    }
  }

  /* ---- The whole header ---- */

  /** Lengths of 0..7 in the order sent, zero from the n-th on. */
  ghost predicate ClOk(cl: seq<int>, n: nat) {
    |cl| == 19 && forall s | 0 <= s < 19 :: 0 <= cl[s] < 8 && (Place(s) >= n ==> cl[s] == 0)
  }

  ghost function ClBits(cl: seq<int>, i: nat, n: nat, rest: seq<bit>): seq<bit>
    requires |cl| == 19 && i <= n <= 19 && forall s | 0 <= s < 19 :: 0 <= cl[s] < 8
    decreases n - i
  {
    if i == n then rest else LowBits(cl[Order(i)], 3) + ClBits(cl, i + 1, n, rest)
  }

  lemma {:induction false} DropClBits(cl: seq<int>, i: nat, n: nat, rest: seq<bit>)
    requires ClOk(cl, n) && i <= n <= 19
    ensures Drop(ClBits(cl, 0, n, rest), 3 * i) == ClBits(cl, i, n, rest)
    ensures 3 * i <= |ClBits(cl, 0, n, rest)|
    ensures i < n ==> ValueLsb(Take(Drop(ClBits(cl, 0, n, rest), 3 * i), 3)) == cl[Order(i)]
  {
    var bs := ClBits(cl, 0, n, rest);
    if i > 0 {
      DropClBits(cl, i - 1, n, rest);
      TakeLow(LowBits(cl[Order(i - 1)], 3), ClBits(cl, i, n, rest));
      DropDrop(bs, 3 * (i - 1), 3);
    }
    if i < n {
      assert Pow2(3) == 8;
      ReadsLow(cl[Order(i)], 3, ClBits(cl, i + 1, n, rest));
    }
  }

  lemma {:induction false} ReadsClLengths(cl: seq<int>, n: nat, k: nat, rest: seq<bit>)
    requires ClOk(cl, n) && k <= n <= 19
    ensures var r := ReadClLengths(ClBits(cl, 0, n, rest), k);
            forall s | 0 <= s < 19 :: r[s] == if Place(s) < k then cl[s] else 0
  {
    hide Order, Place, ValueLsb, Take, Drop, ClBits;
    if k > 0 {
      ReadsClLengths(cl, n, k - 1, rest);
      DropClBits(cl, k - 1, n, rest);
      forall s | 0 <= s < 19 ensures Place(s) == k - 1 <==> s == Order(k - 1) {
        PlaceOfOrder(s, k - 1);
      }
    }
  }

  lemma {:induction false} ClLengthsRange(bs: seq<bit>, n: nat)
    requires n <= 19
    ensures ClOk(ReadClLengths(bs, n), n)
    ensures forall i | 0 <= i < n :: ReadClLengths(bs, n)[Order(i)] == ValueLsb(Take(Drop(bs, 3 * i), 3))
  {
    hide Order, Place, ValueLsb, Take, Drop;
    if n > 0 {
      ClLengthsRange(bs, n - 1);
      ValueLsbBound(Take(Drop(bs, 3 * (n - 1)), 3));
      assert Pow2(3) == 8;
      forall s | 0 <= s < 19 ensures Place(s) == n - 1 <==> s == Order(n - 1) {
        PlaceOfOrder(s, n - 1);
      }
      forall i | 0 <= i < n - 1 ensures Order(i) != Order(n - 1) {
        PlaceOfOrder(Order(i), i);
      }
    }
  }

  lemma DropKeeps(bs: seq<bit>, a: nat, n: nat)
    requires a + 3 <= n <= |bs|
    ensures |Drop(bs, a)| >= 3
  {
  }

  lemma {:induction false} ClLengthsWereSent(bs: seq<bit>, n: nat, i: nat)
    requires i <= n <= 19 && 3 * n <= |bs| && ClOk(ReadClLengths(bs, n), n)
    requires forall i | 0 <= i < n :: ReadClLengths(bs, n)[Order(i)] == ValueLsb(Take(Drop(bs, 3 * i), 3))
    ensures Drop(bs, 3 * i) == ClBits(ReadClLengths(bs, n), i, n, Drop(bs, 3 * n))
    decreases n - i
  {
    hide Order, Place, ValueLsb, Take, Drop, ReadClLengths;
    if i < n {
      ClLengthsWereSent(bs, n, i + 1);
      DropKeeps(bs, 3 * i, 3 * n);
      LowWasRead(Drop(bs, 3 * i), 3);
      DropDrop(bs, 3 * i, 3);
    }
  }

  datatype Header = Header(nlen: nat, ndist: nat, ncode: nat, cl: seq<int>, items: seq<LenItem>)

  ghost predicate HeaderShape(h: Header) {
    && 257 <= h.nlen <= 288 && 1 <= h.ndist <= 32 && h.nlen + h.ndist <= MAXCODES
    && 4 <= h.ncode <= 19 && ClOk(h.cl, h.ncode) && Accepted(h.cl)
    && ItemsOk(h.cl, h.items) && ItemsFill(h.items, h.nlen + h.ndist, [])
  }

  ghost function AllLengths(h: Header): (r: seq<int>)
    requires HeaderShape(h)
    ensures |r| == h.nlen + h.ndist
  {
    ItemsLengths(h.items, h.nlen + h.ndist, [])
  }

  ghost function LitLengths(h: Header): seq<int>
    requires HeaderShape(h)
  {
    AllLengths(h)[..h.nlen]
  }

  ghost function DistLengths(h: Header): seq<int>
    requires HeaderShape(h)
  {
    AllLengths(h)[h.nlen..]
  }

  ghost predicate HeaderOk(h: Header) {
    HeaderShape(h) && Accepted(LitLengths(h)) && Accepted(DistLengths(h))
  }

  ghost function HeaderBits(h: Header, rest: seq<bit>): seq<bit>
    requires HeaderShape(h)
  {
    LowBits(h.nlen - 257, 5) + (LowBits(h.ndist - 1, 5) + (LowBits(h.ncode - 4, 4) +
    ClBits(h.cl, 0, h.ncode, ItemsBits(h.cl, h.items, rest))))
  }

  /** The two tables and the bits after the header, an error, or a header whose tables are
      oversubscribed or too long, for which the decoder's memory is not defined. */
  datatype HeaderRead = Tables(ll: seq<int>, dl: seq<int>, rest: seq<bit>) | BadHeader(code: int) | Undefined

  ghost function SplitTables(r: LenRead, nlen: nat): (h: HeaderRead)
    requires r.LenOk? ==> nlen <= |r.lengths|
  {
    if r.LenFail? then BadHeader(r.code)
    else if Accepted(r.lengths[..nlen]) && Accepted(r.lengths[nlen..]) then
      Tables(r.lengths[..nlen], r.lengths[nlen..], r.rest)
    else Undefined
  }

  ghost function ReadHeader(bs: seq<bit>): (h: HeaderRead)
    ensures h.Tables? ==> |h.rest| <= |bs| && Accepted(h.ll) && Accepted(h.dl)
    ensures h.BadHeader? ==> h.code != 0
  {
    var nlen := ValueLsb(Take(bs, 5)) + 257;
    var ndist := ValueLsb(Take(Drop(bs, 5), 5)) + 1;
    var ncode := ValueLsb(Take(Drop(bs, 10), 4)) + 4;
    NcodeRange(Take(Drop(bs, 10), 4));
    var bs1 := Drop(bs, 14);
    if nlen + ndist > MAXCODES then Undefined
    else if 14 > |bs| || 3 * ncode > |bs1| then BadHeader(ERR_TRUNC)
    else
      var cl := ReadClLengths(bs1, ncode);
      if !Accepted(cl) then Undefined
      else SplitTables(ReadLengths(cl, nlen + ndist, Drop(bs1, 3 * ncode), []), nlen)
  }

  lemma NcodeRange(bs: seq<bit>)
    requires |bs| == 4
    ensures ValueLsb(bs) + 4 <= 19
  {
    ValueLsbBound(bs);
    assert Pow2(4) == 16;
  }

  lemma HeaderFields(h: Header, rest: seq<bit>)
    requires HeaderShape(h)
    ensures var bs := HeaderBits(h, rest);
            && ValueLsb(Take(bs, 5)) + 257 == h.nlen && ValueLsb(Take(Drop(bs, 5), 5)) + 1 == h.ndist
            && ValueLsb(Take(Drop(bs, 10), 4)) + 4 == h.ncode && 14 <= |bs|
            && Drop(bs, 14) == ClBits(h.cl, 0, h.ncode, ItemsBits(h.cl, h.items, rest))
  {
    hide ClBits, Take, Drop, LowBits, ItemsBits, Accepted, ItemsFill;
    var b3 := ClBits(h.cl, 0, h.ncode, ItemsBits(h.cl, h.items, rest));
    var b2 := LowBits(h.ncode - 4, 4) + b3;
    var b1 := LowBits(h.ndist - 1, 5) + b2;
    var bs := LowBits(h.nlen - 257, 5) + b1;
    assert Pow2(4) == 16 && Pow2(5) == 32;
    ReadsLow(h.nlen - 257, 5, b1);
    ReadsLow(h.ndist - 1, 5, b2);
    ReadsLow(h.ncode - 4, 4, b3);
    DropDrop(bs, 5, 5);
    DropDrop(bs, 10, 4);
  }

  /** Reading the bits of a header gives its two tables. */
  lemma ReadsHeader(h: Header, rest: seq<bit>)
    requires HeaderOk(h)
    ensures ReadHeader(HeaderBits(h, rest)) == Tables(LitLengths(h), DistLengths(h), rest)
  {
    hide HeaderBits, ClBits, ReadClLengths, Take, Drop, ItemsBits, Accepted, ItemsFill, ReadLengths, ItemsLengths;
    var items := ItemsBits(h.cl, h.items, rest);
    var bs1 := ClBits(h.cl, 0, h.ncode, items);
    HeaderFields(h, rest);
    ReadsClLengths(h.cl, h.ncode, h.ncode, items);
    assert ReadClLengths(bs1, h.ncode) == h.cl;
    DropClBits(h.cl, h.ncode, h.ncode, items);
    NoClBitsLeft(h.cl, h.ncode, items);
    ReadsItems(h.cl, h.items, h.nlen + h.ndist, [], rest);
  }

  lemma NoClBitsLeft(cl: seq<int>, n: nat, rest: seq<bit>)
    requires ClOk(cl, n) && n <= 19
    ensures ClBits(cl, n, n, rest) == rest
  {
  }

  lemma HeaderWasSent(h: Header, bs: seq<bit>, rest: seq<bit>)
    requires HeaderShape(h) && 14 <= |bs|
    requires ValueLsb(Take(bs, 5)) + 257 == h.nlen && ValueLsb(Take(Drop(bs, 5), 5)) + 1 == h.ndist
    requires ValueLsb(Take(Drop(bs, 10), 4)) + 4 == h.ncode
    requires Drop(bs, 14) == ClBits(h.cl, 0, h.ncode, ItemsBits(h.cl, h.items, rest))
    ensures bs == HeaderBits(h, rest)
  {
    hide ClBits, Take, LowBits, ItemsBits, Accepted, ItemsFill, ValueLsb;
    LowWasRead(bs, 5);
    LowWasRead(Drop(bs, 5), 5);
    LowWasRead(Drop(bs, 10), 4);
    DropDrop(bs, 5, 5);
    DropDrop(bs, 10, 4);
  }

  /** A header that was read had an encoding. */
  lemma HeaderWasRead(bs: seq<bit>) returns (h: Header)
    requires ReadHeader(bs).Tables?
    ensures HeaderOk(h)
    ensures var r := ReadHeader(bs);
            r.ll == LitLengths(h) && r.dl == DistLengths(h) && bs == HeaderBits(h, r.rest)
  {
    hide ClBits, ReadClLengths, Take, ItemsBits, Accepted, ItemsFill, ReadLengths, ItemsLengths, HeaderBits, ClOk;
    var nlen := ValueLsb(Take(bs, 5)) + 257;
    var ndist := ValueLsb(Take(Drop(bs, 5), 5)) + 1;
    var ncode := ValueLsb(Take(Drop(bs, 10), 4)) + 4;
    FieldRanges(bs);
    var bs1 := Drop(bs, 14);
    var cl := ReadClLengths(bs1, ncode);
    ClLengthsRange(bs1, ncode);
    ClLengthsWereSent(bs1, ncode, 0);
    var items := LengthsWereItems(cl, nlen + ndist, Drop(bs1, 3 * ncode), []);
    h := Header(nlen, ndist, ncode, cl, items);
    assert Drop(bs1, 0) == bs1;
    HeaderWasSent(h, bs, ReadHeader(bs).rest);
  }

  lemma FieldRanges(bs: seq<bit>)
    ensures ValueLsb(Take(bs, 5)) < 32 && ValueLsb(Take(Drop(bs, 5), 5)) < 32
    ensures ValueLsb(Take(Drop(bs, 10), 4)) < 16
  {
    ValueLsbBound(Take(bs, 5));
    ValueLsbBound(Take(Drop(bs, 5), 5));
    ValueLsbBound(Take(Drop(bs, 10), 4));
    assert Pow2(4) == 16 && Pow2(5) == 32;
  }

  /* ---- Reading the header in place ---- */

  method ReadCodeLengths(s: Inf, ncode: nat) returns (lengths: seq<int>)
    requires s.Valid() && ncode <= 19
    modifies s`inPos, s`bitBuf, s`bitCnt, s`err
    ensures s.Valid() && lengths == ReadClLengths(old(s.Pending()), ncode)
    ensures s.Pending() == Drop(old(s.Pending()), 3 * ncode)
    ensures s.err == ErrAfter(old(s.err), old(s.Pending()), 3 * ncode)
  {
    hide Inf.Pending, Inf.Valid, Order, ValueLsb, Take, Drop, ReadClLengths;
    ReadClStep(s.Pending(), 0);
    var cl := new int[19](_ => 0);
    ghost var bs := s.Pending();
    assert cl[..] == NoLengths();
    ReadOn(s.err, bs, 0, 0);
    for i := 0 to ncode
      invariant s.Valid() && cl[..] == ReadClLengths(bs, i)
      invariant s.Pending() == Drop(bs, 3 * i) && s.err == ErrAfter(old(s.err), bs, 3 * i)
    {
      var v := s.Bits(3);
      ReadOn(old(s.err), bs, 3 * i, 3);
      ReadClStep(bs, i);
      cl[Order(i)] := v;
    }
    lengths := cl[..];
  }

  /** Appends the value v at most rep times, as far as total. */
  method FillRun(all: array<int>, from: nat, total: nat, v: int, rep: nat) returns (i: nat)
    requires from <= total <= all.Length
    modifies all
    ensures i == from + Room(old(all[..from]), total, rep) && i <= total
    ensures all[..i] == old(all[..from]) + Copies(v, i - from)
  {
    i := from;
    var left := rep;
    while left > 0 && i < total
      invariant from <= i <= total && i - from == rep - left
      invariant all[..i] == old(all[..from]) + Copies(v, i - from)
    {
      all[i] := v;
      i := i + 1;
      left := left - 1;
    }
  }

  /** The entries of one symbol of the code-length code. */
  method ReadItem(s: Inf, sym: int, all: array<int>, i: nat, total: nat) returns (next: nat)
    requires s.Valid() && s.err == 0 && i < total <= all.Length
    modifies s`inPos, s`bitBuf, s`bitCnt, s`err, all
    ensures s.Valid() && next <= total && |s.Pending()| <= |old(s.Pending())|
    ensures match LenItemStep(sym, total, old(s.Pending()), old(all[..i]))
            case LenStop(code) => s.err == code
            case LenMore(rest, acc) => s.err == 0 && s.Pending() == rest && all[..next] == acc
  {
    hide Inf.Pending, Inf.Valid, ValueLsb, Take;
    next := i;
    if sym < 16 {
      all[i] := sym;
      next := i + 1;
    } else if sym == 16 {
      if i == 0 {
        s.SetErr(ERR_BADCODE);
        return;
      }
      var x := s.Bits(2);
      next := FillRun(all, i, total, all[i - 1], x + 3);
    } else if sym == 17 {
      var x := s.Bits(3);
      next := FillRun(all, i, total, 0, x + 3);
    } else {
      var x := s.Bits(7);
      next := FillRun(all, i, total, 0, x + 11);
    }
  }

  method ReadAllLengths(s: Inf, h: Huffman, total: nat, all: array<int>, ghost cl: seq<int>)
    requires s.Valid() && h.TableOf(cl) && total <= all.Length
    requires h.symbol != all
    modifies s`inPos, s`bitBuf, s`bitCnt, s`err, all
    ensures s.Valid() && |s.Pending()| <= |old(s.Pending())|
    ensures old(s.err) != 0 ==> s.err == old(s.err)
    ensures old(s.err) == 0 && Accepted(cl) ==>
              match ReadLengths(cl, total, old(s.Pending()), [])
              case LenOk(lengths, rest) => s.err == 0 && s.Pending() == rest && all[..total] == lengths
              case LenFail(code) => s.err == code
  {
    hide Inf.Pending, Inf.Valid, Huffman.TableOf, Accepted, DecodeSym, LenItemStep, Take, Drop;
    var i: nat := 0;
    ghost var result := ReadLengths(cl, total, s.Pending(), []);
    while i < total && s.err == 0
      invariant s.Valid() && h.TableOf(cl) && i <= total && |s.Pending()| <= |old(s.Pending())|
      invariant old(s.err) != 0 ==> s.err == old(s.err)
      invariant old(s.err) == 0 && Accepted(cl) ==>
                  result == if s.err == 0 then ReadLengths(cl, total, s.Pending(), all[..i]) else LenFail(s.err)
      decreases if s.err == 0 then |s.Pending()| + 1 else 0
    {
      var sym := Decode(s, h, cl);
      if s.err != 0 {
        return;
      }
      i := ReadItem(s, sym, all, i, total);
    }
  }
}
