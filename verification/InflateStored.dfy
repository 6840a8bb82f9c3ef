/** Stored blocks (section 3.2.4 of RFC 1951). */
module InflateStored {
  import opened Bits
  import opened InflateReader
  import opened InflateTable
  import opened InflateCodes

  function Word16(lo: nat, hi: nat): nat {
    lo + 256 * hi
  }

  ghost function ByteAt(bs: seq<bit>, k: nat): nat {
    ValueLsb(Take(Drop(bs, 8 * k), 8))
  }

  /** n bytes copied from whole input bytes. */
  ghost function StoredCopy(bs: seq<bit>, n: nat, out: seq<byte>, max: nat): (o: Outcome)
    ensures o.Done? ==> |o.rest| <= |bs|
    ensures o.Fail? ==> o.code != 0
    decreases n
  {
    if n == 0 then Done(out, bs)
    else if |out| >= max then Fail(ERR_OVERFLOW)
    else if 8 > |bs| then Fail(ERR_TRUNC)
    else
      ByteRange(bs);
      StoredCopy(Drop(bs, 8), n - 1, out + [ByteAt(bs, 0)], max)
  }

  lemma ByteRange(bs: seq<bit>)
    ensures ByteAt(bs, 0) < 256
  {
    ValueLsbBound(Take(Drop(bs, 0), 8));
    assert Pow2(8) == 256;
  }

  ghost function Stored(bs: seq<bit>, out: seq<byte>, max: nat): (o: Outcome)
    ensures o.Done? ==> |o.rest| <= |bs|
    ensures o.Fail? ==> o.code != 0
  {
    var a := Aligned(bs);
    var len := Word16(ByteAt(a, 0), ByteAt(a, 1));
    var nlen := Word16(ByteAt(a, 2), ByteAt(a, 3));
    if len + nlen != 65535 then Fail(ERR_BADBLOCK)
    else if 32 > |a| then Fail(ERR_TRUNC)
    else StoredCopy(Drop(a, 32), len, out, max)
  }

  /** Length, its complement and the data bytes. */
  function StoredBytes(data: seq<byte>): seq<byte>
    requires |data| <= 65535
  {
    var n := |data|;
    var m := 65535 - n;
    [n % 256, n / 256, m % 256, m / 256] + data
  }

  lemma BytesAppend(a: seq<byte>, b: seq<byte>)
    ensures BytesToBits(a + b) == BytesToBits(a) + BytesToBits(b)
  {
    var l, r := BytesToBits(a + b), BytesToBits(a) + BytesToBits(b);
    forall k | 0 <= k < |l| ensures l[k] == r[k] {
      if k >= 8 * |a| {
        ByteShift(k, |a|);
      }
    }
  }

  lemma ByteShift(k: nat, n: nat)
    requires k >= 8 * n
    ensures (k - 8 * n) / 8 == k / 8 - n && (k - 8 * n) % 8 == k % 8
  {
  }

  /** The first byte of a byte string followed by other bits. */
  lemma FirstByte(s: seq<byte>, rest: seq<bit>)
    requires s != []
    ensures var bs := BytesToBits(s) + rest;
            ByteAt(bs, 0) == s[0] && Drop(bs, 8) == BytesToBits(s[1..]) + rest && 8 <= |bs|
  {
    var tail := BytesToBits(s[1..]) + rest;
    var bs := BytesToBits(s) + rest;
    NextByte(s, 0);
    assert s[0..] == s;
    assert bs == LowBits(s[0], 8) + tail;
    ByteFirst(s[0], tail);
    ReadOn(0, bs, 0, 0);
  }

  lemma {:induction false} NthByte(s: seq<byte>, rest: seq<bit>, k: nat)
    requires k <= |s|
    ensures Drop(BytesToBits(s) + rest, 8 * k) == BytesToBits(s[k..]) + rest
    ensures k < |s| ==> ByteAt(BytesToBits(s) + rest, k) == s[k]
    ensures 8 * k <= |BytesToBits(s) + rest|
  {
    hide ValueLsb, Take, Drop, BytesToBits;
    var bs := BytesToBits(s) + rest;
    if k == 0 {
      ReadOn(0, bs, 0, 0);
      assert s[0..] == s;
    } else {
      NthByte(s, rest, k - 1);
      FirstByte(s[k - 1..], rest);
      ReadOn(0, bs, 8 * (k - 1), 8);
      assert s[k - 1..][1..] == s[k..];
    }
    if k < |s| {
      FirstByte(s[k..], rest);
      ReadOn(0, Drop(bs, 8 * k), 0, 0);
      assert s[k..][0] == s[k];
    }
  }

  lemma {:induction false} CopiesStored(data: seq<byte>, k: nat, rest: seq<bit>, out: seq<byte>, max: nat)
    requires k <= |data| && |out| + |data| - k <= max
    ensures StoredCopy(BytesToBits(data[k..]) + rest, |data| - k, out, max) == Done(out + data[k..], rest)
    decreases |data| - k
  {
    hide ValueLsb, Take, Drop, BytesToBits, ByteAt;
    if k == |data| {
      NoBytes(data[k..], rest);
      assert out + data[k..] == out;
    } else {
      FirstByte(data[k..], rest);
      assert data[k..][1..] == data[k + 1..];
      CopiesStored(data, k + 1, rest, out + [data[k]], max);
      assert out + [data[k]] + data[k + 1..] == out + data[k..];
    }
  }

  lemma NoBytes(s: seq<byte>, rest: seq<bit>)
    requires s == []
    ensures BytesToBits(s) + rest == rest
  {
  }

  lemma AlignedAfter(pad: seq<bit>, s: seq<byte>, rest: seq<bit>)
    requires |pad| < 8 && |rest| % 8 == 0
    ensures Aligned(pad + (BytesToBits(s) + rest)) == BytesToBits(s) + rest
  {
    var bs := pad + (BytesToBits(s) + rest);
    assert |bs| == |pad| + 8 * |s| + |rest|;
    assert |bs| % 8 == |pad|;
  }

  /** A stored block appends its data. */
  lemma ReadsStored(pad: seq<bit>, data: seq<byte>, rest: seq<bit>, out: seq<byte>, max: nat)
    requires |data| <= 65535 && |pad| < 8 && |rest| % 8 == 0 && |out| + |data| <= max
    ensures Stored(pad + (BytesToBits(StoredBytes(data)) + rest), out, max) == Done(out + data, rest)
  {
    hide ValueLsb, Take, Drop, BytesToBits, ByteAt, StoredCopy, Aligned;
    var s := StoredBytes(data);
    AlignedAfter(pad, s, rest);
    NthByte(s, rest, 0);
    NthByte(s, rest, 1);
    NthByte(s, rest, 2);
    NthByte(s, rest, 3);
    NthByte(s, rest, 4);
    assert s[4..] == data[0..];
    CopiesStored(data, 0, rest, out, max);
    assert data[0..] == data;
  }

  lemma {:induction false} StoredWasCopied(bs: seq<bit>, n: nat, out: seq<byte>, max: nat) returns (data: seq<byte>)
    requires StoredCopy(bs, n, out, max).Done?
    ensures |data| == n
    ensures var r := StoredCopy(bs, n, out, max); r.out == out + data && bs == BytesToBits(data) + r.rest
    decreases n
  {
    hide ValueLsb, Take, BytesToBits;
    if n == 0 {
      data := [];
      NoBytes(data, bs);
    } else {
      ByteRange(bs);
      var b: byte := ByteAt(bs, 0);
      var more := StoredWasCopied(Drop(bs, 8), n - 1, out + [b], max);
      data := [b] + more;
      var r := StoredCopy(bs, n, out, max);
      assert out + [b] + more == out + data;
      ByteWasRead(bs, b);
      BytesAppend([b], more);
      assert BytesToBits(data) + r.rest == BytesToBits([b]) + (BytesToBits(more) + r.rest);
    }
  }

  lemma ByteWasRead(bs: seq<bit>, b: byte)
    requires 8 <= |bs| && b == ByteAt(bs, 0)
    ensures bs == BytesToBits([b]) + Drop(bs, 8)
  {
    hide ValueLsb, Take, Drop, BytesToBits;
    ReadOn(0, bs, 0, 0);
    LowWasRead(bs, 8);
    NextByte([b], 0);
    assert [b][0..] == [b] && [b][1..] == [];
    NoBytes([b][1..], []);
    assert LowBits(b, 8) + BytesToBits([b][1..]) == LowBits(b, 8);
  }

  lemma WordBytes(n: nat, m: nat, a: byte, b: byte, c: byte, d: byte)
    requires n == Word16(a, b) && m == Word16(c, d) && n + m == 65535
    ensures a == n % 256 && b == n / 256 && c == (65535 - n) % 256 && d == (65535 - n) / 256
  {
  }

  lemma StoredWasRead(bs: seq<bit>, out: seq<byte>, max: nat) returns (pad: seq<bit>, data: seq<byte>)
    requires Stored(bs, out, max).Done?
    ensures |pad| < 8 && |data| <= 65535
    ensures var r := Stored(bs, out, max);
            && r.out == out + data && bs == pad + (BytesToBits(StoredBytes(data)) + r.rest)
            && |r.rest| % 8 == 0
  {
    hide ValueLsb, Take, BytesToBits, StoredCopy, ByteAt;
    var a := Aligned(bs);
    pad := bs[..|bs| % 8];
    var r := Stored(bs, out, max);
    data := StoredWasCopied(Drop(a, 32), Word16(ByteAt(a, 0), ByteAt(a, 1)), out, max);
    FourBytes(a, data, r.rest);
    AlignedLength(bs, a, StoredBytes(data), r.rest);
  }

  lemma AlignedLength(bs: seq<bit>, a: seq<bit>, s: seq<byte>, rest: seq<bit>)
    requires a == Aligned(bs) && a == BytesToBits(s) + rest
    ensures |rest| % 8 == 0
  {
    hide BytesToBits;
    WholeBytes(|bs|, |s|, |rest|);
  }

  lemma WholeBytes(n: nat, k: nat, rest: nat)
    requires n - n % 8 == 8 * k + rest
    ensures rest % 8 == 0
  {
  }

  lemma FourBytes(a: seq<bit>, data: seq<byte>, rest: seq<bit>)
    requires 32 <= |a| && |data| == Word16(ByteAt(a, 0), ByteAt(a, 1))
    requires |data| + Word16(ByteAt(a, 2), ByteAt(a, 3)) == 65535
    requires Drop(a, 32) == BytesToBits(data) + rest
    ensures |data| <= 65535 && a == BytesToBits(StoredBytes(data)) + rest
  {
    hide ValueLsb, Take, BytesToBits, ByteAt, Drop;
    var b0, b1, b2, b3 := ByteOf(a, 0), ByteOf(a, 1), ByteOf(a, 2), ByteOf(a, 3);
    WordBytes(|data|, 65535 - |data|, b0, b1, b2, b3);
    assert StoredBytes(data) == [b0] + ([b1] + ([b2] + ([b3] + data)));
    BytesAppend([b3], data);
    BytesAppend([b2], [b3] + data);
    BytesAppend([b1], [b2] + ([b3] + data));
    BytesAppend([b0], [b1] + ([b2] + ([b3] + data)));
    FourAppended(a, BytesToBits([b0]), BytesToBits([b1]), BytesToBits([b2]), BytesToBits([b3]),
      BytesToBits(data), rest);
  }

  /** Byte k of the bits, which begin with it once k bytes are dropped. */
  lemma ByteRead(a: seq<bit>, k: nat)
    requires 8 * k + 8 <= |a|
    ensures ByteAt(a, k) < 256
    ensures Drop(a, 8 * k) == BytesToBits([ByteAt(a, k)]) + Drop(a, 8 * k + 8)
  {
    hide ValueLsb, Take, BytesToBits;
    var c := Drop(a, 8 * k);
    ReadOn(0, c, 0, 0);
    ByteRange(c);
    ByteWasRead(c, ByteAt(c, 0));
    ReadOn(0, a, 8 * k, 8);
  }

  ghost function ByteOf(a: seq<bit>, k: nat): (b: byte)
    requires 8 * k + 8 <= |a|
    ensures b == ByteAt(a, k)
    ensures Drop(a, 8 * k) == BytesToBits([b]) + Drop(a, 8 * k + 8)
  {
    ByteRead(a, k);
    ByteAt(a, k)
  }

  lemma FourAppended(a: seq<bit>, b0: seq<bit>, b1: seq<bit>, b2: seq<bit>, b3: seq<bit>, d: seq<bit>, rest: seq<bit>)
    requires Drop(a, 0) == b0 + Drop(a, 8) && Drop(a, 8) == b1 + Drop(a, 16)
    requires Drop(a, 16) == b2 + Drop(a, 24) && Drop(a, 24) == b3 + Drop(a, 32) && Drop(a, 32) == d + rest
    ensures a == b0 + (b1 + (b2 + (b3 + d))) + rest
  {
    hide Drop;
    ReadOn(0, a, 0, 0);
    assert b0 + (b1 + (b2 + (b3 + d))) + rest == b0 + (b1 + (b2 + (b3 + (d + rest))));
  }

  /* ---- The reader in place ---- */

  lemma AlignedTwice(bs: seq<bit>, n: nat)
    ensures Aligned(Drop(Aligned(bs), 8 * n)) == Drop(Aligned(bs), 8 * n)
  {
    var a := Aligned(bs);
    assert |a| == 8 * (|bs| / 8);
    if 8 * n <= |a| {
      assert |Drop(a, 8 * n)| == 8 * (|bs| / 8 - n);
    }
  }

  /** Reads the k-th byte after alignment. */
  method NextStoredByte(s: Inf, ghost a: seq<bit>, ghost err0: int, ghost k: nat, ghost start: seq<bit>)
    returns (b: byte)
    requires s.Valid() && a == Aligned(start)
    requires if k == 0 then s.Pending() == start && s.err == err0
             else s.Pending() == Drop(a, 8 * k) && s.err == ErrAfter(err0, a, 8 * k)
    modifies s`inPos, s`bitBuf, s`bitCnt, s`err
    ensures s.Valid() && b == ByteAt(a, k)
    ensures s.Pending() == Drop(a, 8 * k + 8) && s.err == ErrAfter(err0, a, 8 * k + 8)
    ensures s.Written() == old(s.Written())
  {
    hide Inf.Pending, Inf.Valid, Aligned, Take, Drop, ValueLsb, ErrAfter;
    AlignedTwice(start, k);
    ReadOn(err0, a, 8 * k, 8);
    ReadOn(err0, a, 0, 8);
    b := s.ReadByte();
  }

  /** Copies a stored block; the length and its complement must add up. */
  method InflateStored(s: Inf)
    requires s.Valid() && s.err == 0
    modifies s`inPos, s`bitBuf, s`bitCnt, s`err, s`outPos, s.out
    ensures s.Valid() && old(s.Written()) <= s.Written()
    ensures s.err == 0 ==> |s.Pending()| <= |old(s.Pending())|
    ensures match Stored(old(s.Pending()), old(s.Written()), s.outMax)
            case Done(o, r) => s.err == 0 && s.Written() == o && s.Pending() == r
            case Fail(e) => s.err == e
  {
    hide Inf.Pending, Inf.Valid, Aligned, Take, Drop, ByteAt, StoredCopy, Inf.Written;
    ghost var start := s.Pending();
    ghost var a := Aligned(start);
    var b0 := NextStoredByte(s, a, 0, 0, start);
    var b1 := NextStoredByte(s, a, 0, 1, start);
    var b2 := NextStoredByte(s, a, 0, 2, start);
    var b3 := NextStoredByte(s, a, 0, 3, start);
    var len := Word16(b0, b1);
    var nlen := Word16(b2, b3);
    if len + nlen != 65535 {
      s.SetErr(ERR_BADBLOCK);
      return;
    }
    CopyStored(s, len, start, 4);
  }

  method CopyStored(s: Inf, len: nat, ghost start: seq<bit>, ghost k: nat)
    requires s.Valid() && s.Pending() == Drop(Aligned(start), 8 * k)
    requires s.err == ErrAfter(0, Aligned(start), 8 * k)
    modifies s`inPos, s`bitBuf, s`bitCnt, s`err, s`outPos, s.out
    ensures s.Valid() && old(s.Written()) <= s.Written()
    ensures |s.Pending()| <= |old(s.Pending())|
    ensures old(s.err) != 0 ==> s.err == old(s.err)
    ensures old(s.err) == 0 ==>
              match StoredCopy(old(s.Pending()), len, old(s.Written()), s.outMax)
              case Done(o, r) => s.err == 0 && s.Written() == o && s.Pending() == r
              case Fail(e) => s.err == e
  {
    hide Inf.Pending, Inf.Valid, Aligned, Take, Drop, ValueLsb;
    ghost var result := StoredCopy(s.Pending(), len, s.Written(), s.outMax);
    var left: nat := len;
    ghost var k' := k;
    while left > 0 && s.err == 0
      invariant s.Valid() && old(s.Written()) <= s.Written() && |s.Pending()| <= |old(s.Pending())|
      invariant s.err == 0 ==> s.Pending() == Drop(Aligned(start), 8 * k')
      invariant old(s.err) != 0 ==> s.err == old(s.err)
      invariant old(s.err) == 0 && s.err == 0 ==> result == StoredCopy(s.Pending(), left, s.Written(), s.outMax)
      invariant old(s.err) == 0 && s.err != 0 ==> result == Fail(s.err)
      decreases left
    {
      left := left - 1;
      AlignedTwice(start, k');
      ReadOn(0, Aligned(start), 8 * k', 8);
      ReadOn(0, s.Pending(), 0, 8);
      var b := s.ReadByte();
      s.Emit(b);
      k' := k' + 1;
    }
  }
}
