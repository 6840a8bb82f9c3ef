/** The gzip envelope (RFC 1952) around stored deflate blocks. */
module Gzip {
  import opened GzipHeader
  import opened Bits
  import opened Crc32
  import opened CrcWords
  import opened InflateReader
  import opened InflateCodes
  import opened InflateStored
  import opened InflateStream

  const STORED_BLOCK_MAX := 65535

  /* ---- What gzip_compress writes ---- */

  const HEADER: seq<byte> := [0x1F, 0x8B, 8, 0, 0, 0, 0, 0, 0, 0xFF]

  function BlockBytes(last: bool, data: seq<byte>): (r: seq<byte>)
    requires |data| <= STORED_BLOCK_MAX
    ensures |r| == |data| + 5
  {
    [if last then 1 else 0] + StoredBytes(data)
  }

  /** The stored blocks for src: full blocks, then the final one. */
  function DeflateBytes(src: seq<byte>): seq<byte>
    decreases |src|
  {
    if |src| <= STORED_BLOCK_MAX then BlockBytes(true, src)
    else BlockBytes(false, src[..STORED_BLOCK_MAX]) + DeflateBytes(src[STORED_BLOCK_MAX..])
  }

  function Trailer(src: seq<byte>): (r: seq<byte>)
    requires |src| < 0x1_0000_0000
    ensures |r| == 8
  {
    Le32(Crc(src)) + Le32(|src|)
  }

  function GzipBytes(src: seq<byte>): seq<byte>
    requires |src| < 0x1_0000_0000
  {
    HEADER + DeflateBytes(src) + Trailer(src)
  }

  /** The file of the digits 1 to 9. */
  lemma Example()
    ensures GzipBytes([0x31, 0x32, 0x33, 0x34, 0x35, 0x36, 0x37, 0x38, 0x39]) ==
            [0x1F, 0x8B, 0x08, 0x00, 0x00, 0x00, 0x00, 0x00, 0x00, 0xFF] +
            [0x01, 0x09, 0x00, 0xF6, 0xFF] + [0x31, 0x32, 0x33, 0x34, 0x35, 0x36, 0x37, 0x38, 0x39] +
            [0x26, 0x39, 0xF4, 0xCB, 0x09, 0x00, 0x00, 0x00]
  {
    hide Crc;
    var src := [0x31, 0x32, 0x33, 0x34, 0x35, 0x36, 0x37, 0x38, 0x39];
    CheckValue();
    assert Le32(0xCBF43926) == [0x26, 0x39, 0xF4, 0xCB] && Le32(9) == [0x09, 0x00, 0x00, 0x00];
    assert StoredBytes(src) == [0x09, 0x00, 0xF6, 0xFF] + src;
    hide Le32, StoredBytes;
    assert DeflateBytes(src) == [0x01, 0x09, 0x00, 0xF6, 0xFF] + src;
  }

  /** Number of stored blocks: at least one, also for no data. */
  function BlockCount(n: nat): nat {
    if n == 0 then 1 else (n + STORED_BLOCK_MAX - 1) / STORED_BLOCK_MAX
  }

  lemma {:induction false} DeflateSize(src: seq<byte>)
    ensures |DeflateBytes(src)| == |src| + 5 * BlockCount(|src|)
    decreases |src|
  {
    if |src| > STORED_BLOCK_MAX {
      DeflateSize(src[STORED_BLOCK_MAX..]);
    }
  }

  /** The exact size of the output. */
  lemma GzipSize(src: seq<byte>)
    requires |src| < 0x1_0000_0000
    ensures |GzipBytes(src)| == |src| + 18 + 5 * BlockCount(|src|)
  {
    DeflateSize(src);
  }

  /* ---- The blocks seen by the decompressor ---- */

  const PAD: seq<bit> := [0, 0, 0, 0, 0]

  ghost function Blocks(src: seq<byte>): (r: seq<Block>)
    ensures r != [] && BlocksOk(r)
    decreases |src|
  {
    if |src| <= STORED_BLOCK_MAX then [StoredBlock(PAD, src)]
    else
      var more := Blocks(src[STORED_BLOCK_MAX..]);
      [StoredBlock(PAD, src[..STORED_BLOCK_MAX])] + more
  }

  lemma OneBlockBits(last: bool, data: seq<byte>, rest: seq<bit>)
    requires |data| <= STORED_BLOCK_MAX
    ensures BytesToBits(BlockBytes(last, data)) + rest ==
            [if last then 1 else 0] + (LowBits(0, 2) + (PAD + (BytesToBits(StoredBytes(data)) + rest)))
  {
    hide BytesToBits, LowBits, StoredBytes;
    var b: byte := if last then 1 else 0;
    HeadByte(b);
    BytesAppend([b], StoredBytes(data));
    Regroup([b], LowBits(0, 2), PAD, BytesToBits(StoredBytes(data)), rest);
  }

  lemma Regroup(a: seq<bit>, b: seq<bit>, c: seq<bit>, d: seq<bit>, rest: seq<bit>)
    ensures (a + (b + c)) + d + rest == a + (b + (c + (d + rest)))
  {
  }

  lemma HeadByte(b: byte)
    requires b <= 1
    ensures BytesToBits([b]) == [b] + (LowBits(0, 2) + PAD)
  {
    NextByte([b], 0);
    assert [b][0..] == [b];
    assert BytesToBits([b][1..]) == [];
    assert LowBits(b, 8) == [b] + LowBits(0, 7);
    assert LowBits(0, 7) == [0, 0] + LowBits(0, 5);
    assert LowBits(0, 5) == PAD;
    assert LowBits(0, 2) == [0, 0];
  }

  lemma StoredStream(data: seq<byte>, more: seq<Block>, rest: seq<bit>)
    requires |data| <= STORED_BLOCK_MAX && BlocksOk(more) && |StreamBits(more, rest)| % 8 == 0 && StreamFits(more, rest)
    ensures var bs := [StoredBlock(PAD, data)] + more;
            && BlocksOk(bs) && StreamFits(bs, rest)
            && StreamBits(bs, rest) == BytesToBits(BlockBytes(more == [], data)) + StreamBits(more, rest)
  {
    hide BytesToBits, StoredBytes, LowBits, BlockBytes;
    var bs := [StoredBlock(PAD, data)] + more;
    assert bs[1..] == more && bs[0] == StoredBlock(PAD, data);
    OneBlockBits(more == [], data, StreamBits(more, rest));
  }

  /** The bytes written are the bits of the blocks. */
  lemma {:induction false} BlocksBits(src: seq<byte>)
    ensures StreamBits(Blocks(src), []) == BytesToBits(DeflateBytes(src))
    ensures StreamFits(Blocks(src), [])
    decreases |src|
  {
    hide StreamBits, StreamFits, BlockBytes;
    if |src| <= STORED_BLOCK_MAX {
      NoBlocks();
      StoredStream(src, [], []);
      assert [StoredBlock(PAD, src)] + [] == Blocks(src);
      assert BytesToBits(DeflateBytes(src)) + [] == BytesToBits(DeflateBytes(src));
    } else {
      var head, tail := src[..STORED_BLOCK_MAX], src[STORED_BLOCK_MAX..];
      BlocksBits(tail);
      StoredStream(head, Blocks(tail), []);
      BytesAppend(BlockBytes(false, head), DeflateBytes(tail));
    }
  }

  lemma NoBlocks()
    ensures StreamBits([], []) == [] && StreamFits([], [])
  {
  }

  lemma {:induction false} BlocksExpand(src: seq<byte>, out: seq<byte>)
    ensures StreamExpandable(out, Blocks(src)) && ExpandStream(out, Blocks(src)) == out + src
    decreases |src|
  {
    var bs := Blocks(src);
    if |src| <= STORED_BLOCK_MAX {
      assert bs[1..] == [];
    } else {
      var head, tail := src[..STORED_BLOCK_MAX], src[STORED_BLOCK_MAX..];
      assert bs[1..] == Blocks(tail);
      BlocksExpand(tail, out + head);
      assert out + head + tail == out + src;
    }
  }

  /** Inflating the stored blocks gives the source back. */
  lemma InflatesBack(src: seq<byte>, max: nat)
    requires |src| <= max
    ensures InflateAll(BytesToBits(DeflateBytes(src)), [], max) == Known(Done(src, []))
  {
    hide BytesToBits, InflateAll, StreamBits, DeflateBytes;
    BlocksBits(src);
    BlocksExpand(src, []);
    assert [] + src == src;
    InflateInvertsEncoding(Blocks(src), [], [], max);
  }

  /* ---- What gzip_decompress accepts ---- */

  datatype Gunzipped = Plain(data: seq<byte>) | Rejected | Undetermined

  ghost function CheckTrailer(z: seq<byte>, data: seq<byte>): Gunzipped
    requires |z| >= 8
  {
    var n := |z|;
    if FromLe32(z[n - 8..n - 4]) != Crc(data) then Rejected
    else if FromLe32(z[n - 4..]) != |data| then Rejected
    else Plain(data)
  }

  ghost function Gunzip(z: seq<byte>, cap: nat): Gunzipped {
    var p := HeaderEnd(z);
    if p == -1 then Rejected
    else
      match InflateAll(BytesToBits(z[p..|z| - 8]), [], cap)
      case Known(Done(data, _)) => CheckTrailer(z, data)
      case Known(Fail(_)) => Rejected
      case Unspecified => Undetermined
  }

  /** A gzip file with the plain header of gzip_compress. */
  function Envelope(body: seq<byte>, trailer: seq<byte>): seq<byte> {
    HEADER + body + trailer
  }

  lemma EnvelopeParts(body: seq<byte>, trailer: seq<byte>)
    requires |body| >= 2 && |trailer| == 8
    ensures var z := Envelope(body, trailer);
            && HeaderEnd(z) == 10 && z[10..|z| - 8] == body
            && z[|z| - 8..|z| - 4] == trailer[..4] && z[|z| - 4..] == trailer[4..]
  {
    var z := Envelope(body, trailer);
    assert z[..10] == HEADER;
    assert z[0] == 0x1F && z[1] == 0x8B && z[2] == 8 && z[3] == 0;
    assert BitOf(0, 2) == 0 && BitOf(0, 3) == 0 && BitOf(0, 4) == 0 && BitOf(0, 1) == 0;
  }

  /** The trailer of src accepts data exactly when the checksum and the length agree. */
  lemma TrailerDecides(src: seq<byte>, body: seq<byte>, data: seq<byte>)
    requires |src| < 0x1_0000_0000 && |body| >= 2
    ensures CheckTrailer(Envelope(body, Trailer(src)), data) ==
            if Crc(data) == Crc(src) && |data| == |src| then Plain(data) else Rejected
  {
    hide Crc, FromLe32, Le32, HeaderEnd;
    EnvelopeParts(body, Trailer(src));
    assert Trailer(src)[..4] == Le32(Crc(src)) && Trailer(src)[4..] == Le32(|src|);
    Le32RoundTrip(Crc(src));
    Le32RoundTrip(|src|);
  }

  lemma GunzipStored(src: seq<byte>, data: seq<byte>, cap: nat)
    requires |src| < 0x1_0000_0000 && |data| <= cap
    ensures Gunzip(Envelope(DeflateBytes(data), Trailer(src)), cap) ==
            if Crc(data) == Crc(src) && |data| == |src| then Plain(data) else Rejected
  {
    hide Crc, HeaderEnd, InflateAll, BytesToBits, CheckTrailer, DeflateBytes, Envelope;
    DeflateSize(data);
    EnvelopeParts(DeflateBytes(data), Trailer(src));
    InflatesBack(data, cap);
    TrailerDecides(src, DeflateBytes(data), data);
  }

  /** Decompression restores what was compressed. */
  lemma GzipRoundTrip(src: seq<byte>, cap: nat)
    requires |src| < 0x1_0000_0000 && |src| <= cap
    ensures Gunzip(GzipBytes(src), cap) == Plain(src)
  {
    GunzipStored(src, src, cap);
  }

  /** Under any header and before the right trailer, any deflate stream is restored. */
  lemma AnyHeaderAccepted(h: Member, body: seq<byte>, data: seq<byte>, rest: seq<bit>, cap: nat)
    requires MemberOk(h) && InflateAll(BytesToBits(body), [], cap) == Known(Done(data, rest)) && |data| < 0x1_0000_0000
    ensures Gunzip(HeaderBytes(h) + (body + Trailer(data)), cap) == Plain(data)
  {
    hide HeaderBytes, HeaderEnd, MemberOk, InflateAll, Crc, FromLe32, Le32;
    StreamIsLong(BytesToBits(body), [], cap);
    HeaderEndIs(h, body + Trailer(data));
    var a, t := HeaderBytes(h), Trailer(data);
    var z := a + (body + t);
    assert z[|a|..|z| - 8] == body && z[|z| - 8..|z| - 4] == t[..4] && z[|z| - 4..] == t[4..];
    assert t[..4] == Le32(Crc(data)) && t[4..] == Le32(|data|);
    Le32RoundTrip(Crc(data));
    Le32RoundTrip(|data|);
  }

  /** Conversely, whatever is restored stood under such a header as a deflate stream with its trailer. */
  lemma RestoredWasMember(z: seq<byte>, cap: nat) returns (h: Member, body: seq<byte>, data: seq<byte>, rest: seq<bit>)
    requires Gunzip(z, cap).Plain?
    ensures MemberOk(h) && InflateAll(BytesToBits(body), [], cap) == Known(Done(data, rest))
    ensures data == Gunzip(z, cap).data && |data| < 0x1_0000_0000
    ensures z == HeaderBytes(h) + (body + Trailer(data))
  {
    hide HeaderBytes, HeaderEnd, MemberOk, InflateAll, Crc, FromLe32, Le32;
    h := HeaderWasParsed(z);
    var p, n := HeaderEnd(z), |z|;
    body := z[p..n - 8];
    var o := InflateAll(BytesToBits(body), [], cap);
    data, rest := o.o.out, o.o.rest;
    WordWas(z[n - 8..n - 4], Crc(data));
    WordWas(z[n - 4..], |data|);
    assert z[n - 8..] == z[n - 8..n - 4] + z[n - 4..] == Trailer(data);
    assert z == z[..p] + (body + z[n - 8..]);
  }

  lemma WordWas(s: seq<byte>, v: int)
    requires |s| == 4 && FromLe32(s) == v
    ensures 0 <= v < 0x1_0000_0000 && s == Le32(v)
  {
    var a, b, c, d := s[0], s[1], s[2], s[3];
    DivUnique(v, 256, b + 256 * (c as int) + 65536 * (d as int), a);
    DivUnique(v, 65536, c + 256 * (d as int), a + 256 * (b as int));
    DivUnique(v, 0x100_0000, d, a + 256 * (b as int) + 65536 * (c as int));
  }

  /* ---- Changed data bytes ---- */

  /** Where data byte k stands in the deflate data: after the heads of its and all earlier blocks. */
  function DataAt(k: nat): nat {
    k + 5 * (k / STORED_BLOCK_MAX + 1)
  }

  lemma {:induction false} ChangedDeflateByte(src: seq<byte>, k: nat, v: byte)
    requires k < |src|
    ensures DataAt(k) < |DeflateBytes(src)|
    ensures DeflateBytes(src)[DataAt(k)] == src[k]
    ensures DeflateBytes(src)[DataAt(k) := v] == DeflateBytes(src[k := v])
    decreases |src|
  {
    DeflateSize(src);
    if |src| <= STORED_BLOCK_MAX {
      SameBlock(k);
      ChangedBlockByte(true, src, k, v);
    } else {
      var head, tail := src[..STORED_BLOCK_MAX], src[STORED_BLOCK_MAX..];
      var src' := src[k := v];
      if k < STORED_BLOCK_MAX {
        SameBlock(k);
        ChangedBlockByte(false, head, k, v);
        assert src'[..STORED_BLOCK_MAX] == head[k := v] && src'[STORED_BLOCK_MAX..] == tail;
      } else {
        LaterBlock(k);
        ChangedDeflateByte(tail, k - STORED_BLOCK_MAX, v);
        assert src'[..STORED_BLOCK_MAX] == head && src'[STORED_BLOCK_MAX..] == tail[k - STORED_BLOCK_MAX := v];
      }
    }
  }

  lemma SameBlock(k: nat)
    requires k < STORED_BLOCK_MAX
    ensures DataAt(k) == k + 5
  {
  }

  lemma LaterBlock(k: nat)
    requires k >= STORED_BLOCK_MAX
    ensures DataAt(k) == STORED_BLOCK_MAX + 5 + DataAt(k - STORED_BLOCK_MAX)
  {
  }

  lemma ChangedBlockByte(last: bool, data: seq<byte>, k: nat, v: byte)
    requires k < |data| <= STORED_BLOCK_MAX
    ensures BlockBytes(last, data)[k + 5] == data[k]
    ensures BlockBytes(last, data)[k + 5 := v] == BlockBytes(last, data[k := v])
  {
  }

  /** Changing any one data byte of a compressed file makes decompression fail. */
  lemma ChangedByteRejected(src: seq<byte>, k: nat, v: byte, cap: nat)
    requires |src| < 0x1_0000_0000 && |src| <= cap && k < |src| && v != src[k]
    ensures 10 + DataAt(k) < |GzipBytes(src)| && GzipBytes(src)[10 + DataAt(k)] == src[k]
    ensures Gunzip(GzipBytes(src)[10 + DataAt(k) := v], cap) == Rejected
  {
    hide Crc, Gunzip;
    ChangedDeflateByte(src, k, v);
    ChangedByteDetected(src, k, v);
    GunzipStored(src, src[k := v], cap);
    assert GzipBytes(src)[10 + DataAt(k) := v] == Envelope(DeflateBytes(src[k := v]), Trailer(src));
  }

  /* ---- Compression in place ---- */

  /** Writes the bytes at pos, which must have room. */
  method Put(dst: array<byte>, pos: nat, bytes: seq<byte>) returns (next: nat)
    requires pos + |bytes| <= dst.Length
    modifies dst
    ensures next == pos + |bytes| && dst[..next] == old(dst[..pos]) + bytes
  {
    for i := 0 to |bytes|
      invariant dst[..pos + i] == old(dst[..pos]) + bytes[..i]
    {
      dst[pos + i] := bytes[i];
    }
    assert bytes[..|bytes|] == bytes;
    next := pos + |bytes|;
  }

  /** Writes one stored block; the caller has checked the room. */
  method PutBlock(src: array<byte>, offset: nat, blockLen: nat, last: bool, dst: array<byte>, pos: nat)
    returns (next: nat)
    requires src != dst && offset + blockLen <= src.Length && blockLen <= STORED_BLOCK_MAX
    requires pos + blockLen + 5 <= dst.Length
    modifies dst
    ensures next == pos + blockLen + 5
    ensures dst[..next] == old(dst[..pos]) + BlockBytes(last, src[offset..offset + blockLen])
  {
    ghost var data := src[offset..offset + blockLen];
    next := Put(dst, pos, [if last then 1 else 0]);
    next := Put(dst, next, Le16(blockLen));
    next := Put(dst, next, Le16(65535 - blockLen));
    next := Put(dst, next, src[offset..offset + blockLen]);
    BlockParts(last, data);
  }

  lemma BlockParts(last: bool, data: seq<byte>)
    requires |data| <= STORED_BLOCK_MAX
    ensures BlockBytes(last, data) == [if last then 1 else 0] + Le16(|data|) + Le16(65535 - |data|) + data
  {
  }

  lemma BlocksFrom(src: seq<byte>, offset: nat)
    requires offset < |src|
    ensures var rest := src[offset..];
            if |rest| <= STORED_BLOCK_MAX then DeflateBytes(rest) == BlockBytes(true, rest)
            else
              && DeflateBytes(rest) == BlockBytes(false, src[offset..offset + STORED_BLOCK_MAX]) +
                                       DeflateBytes(src[offset + STORED_BLOCK_MAX..])
              && |DeflateBytes(src[offset + STORED_BLOCK_MAX..])| >= 5
  {
    var rest := src[offset..];
    if |rest| > STORED_BLOCK_MAX {
      assert rest[STORED_BLOCK_MAX..] == src[offset + STORED_BLOCK_MAX..];
      assert rest[..STORED_BLOCK_MAX] == src[offset..offset + STORED_BLOCK_MAX];
      DeflateSize(src[offset + STORED_BLOCK_MAX..]);
    }
  }

  /** Writes all blocks; ok is false when they and the trailer do not fit. */
  method PutBlocks(src: array<byte>, srcLen: nat, dst: array<byte>, cap: nat, start: nat)
    returns (pos: nat, ok: bool)
    requires src != dst && 0 < srcLen <= src.Length && start <= cap <= dst.Length
    modifies dst
    ensures pos <= cap
    ensures ok ==> dst[..pos] == old(dst[..start]) + DeflateBytes(src[..srcLen])
    ensures !ok ==> start + |DeflateBytes(src[..srcLen])| > cap
  {
    hide DeflateBytes, BlockBytes, BlockCount;
    ghost var all := src[..srcLen];
    pos := start;
    var remaining: nat, offset: nat := srcLen, 0;
    assert all[0..] == all;
    while remaining > 0
      invariant src[..srcLen] == all && remaining + offset == srcLen && start <= pos <= cap
      invariant remaining > 0 ==>
                  dst[..pos] + DeflateBytes(all[offset..]) == old(dst[..start]) + DeflateBytes(all)
      invariant remaining == 0 ==> dst[..pos] == old(dst[..start]) + DeflateBytes(all)
    {
      var blockLen := if remaining > STORED_BLOCK_MAX then STORED_BLOCK_MAX else remaining;
      var last := remaining <= STORED_BLOCK_MAX;
      BlocksFrom(all, offset);
      assert all[offset..offset + blockLen] == src[offset..offset + blockLen];
      if cap - pos < blockLen + 5 {
        assert |dst[..pos] + DeflateBytes(all[offset..])| == start + |DeflateBytes(all)|;
        return pos, false;
      }
      ghost var before := dst[..pos];
      pos := PutBlock(src, offset, blockLen, last, dst, pos);
      assert dst[..pos] == before + BlockBytes(last, all[offset..offset + blockLen]);
      offset := offset + blockLen;
      remaining := remaining - blockLen;
    }
    ok := true;
  }

  /** Size of the gzip file, or 0 if it does not fit the capacity. */
  method GzipCompress(crc: Checksum, src: array<byte>, srcLen: nat, dst: array<byte>, cap: nat) returns (r: int)
    requires crc.Valid() && src != dst && srcLen <= src.Length && cap <= dst.Length
    requires srcLen < 0x1_0000_0000
    modifies dst, crc, crc.table
    ensures crc.Valid()
    ensures r == if srcLen + 18 + 5 * BlockCount(srcLen) <= cap then srcLen + 18 + 5 * BlockCount(srcLen) else 0
    ensures r != 0 ==> dst[..r] == GzipBytes(src[..srcLen])
  {
    hide DeflateBytes, BlockBytes, BlockCount, Le32, Crc, Checksum.Valid;
    ghost var all := src[..srcLen];
    DeflateSize(all);
    if cap < 18 {
      return 0;
    }
    var pos := Put(dst, 0, HEADER);
    assert dst[..10] == HEADER;
    if srcLen == 0 {
      if cap - pos < 5 {
        return 0;
      }
      EmptyBlock(all);
      pos := Put(dst, pos, [1]);
      pos := Put(dst, pos, Le16(0));
      pos := Put(dst, pos, Le16(0xFFFF));
      assert [1] + (Le16(0) + Le16(0xFFFF)) == DeflateBytes(all);
    } else {
      var ok;
      pos, ok := PutBlocks(src, srcLen, dst, cap, pos);
      if !ok {
        return 0;
      }
    }
    assert dst[..pos] == HEADER + DeflateBytes(all);
    if cap - pos < 8 {
      return 0;
    }
    var sum := crc.Compute(src[..srcLen]);
    r := PutTrailer(dst, pos, sum, srcLen, all);
  }

  method PutTrailer(dst: array<byte>, pos: nat, sum: uint32, srcLen: uint32, ghost all: seq<byte>) returns (next: nat)
    requires pos + 8 <= dst.Length && |all| == srcLen && sum == Crc(all)
    modifies dst
    ensures next == pos + 8 && dst[..next] == old(dst[..pos]) + Trailer(all)
  {
    hide Le32, Crc;
    next := Put(dst, pos, Le32(sum));
    next := Put(dst, next, Le32(srcLen));
  }

  lemma EmptyBlock(src: seq<byte>)
    requires src == []
    ensures DeflateBytes(src) == [1, 0, 0, 255, 255]
  {
  }

  /* ---- Decompression in place ---- */

  /** Number of bytes restored, or 0 for any error (and for a file of no data). */
  method GzipDecompress(crc: Checksum, z: seq<byte>, dst: array<byte>, cap: nat) returns (n: nat)
    requires crc.Valid() && cap <= dst.Length && cap < 0x8000_0000
    modifies dst, crc, crc.table
    ensures crc.Valid() && n <= cap
    ensures match Gunzip(z, cap)
            case Plain(data) => n == |data| && dst[..n] == data
            case Rejected => n == 0
            case Undetermined => true
  {
    hide HeaderEnd, InflateAll, Crc, FromLe32, BytesToBits, Checksum.Valid;
    var hdrLen := ParseHeader(z);
    if hdrLen == -1 {
      return 0;
    }
    var rc, outLen := DeflateDecompress(z[hdrLen..|z| - 8], dst, cap);
    if rc != 0 {
      return 0;
    }
    var stored := FromLe32(z[|z| - 8..|z| - 4]);
    var actual := crc.Compute(dst[..outLen]);
    if stored != actual {
      return 0;
    }
    if FromLe32(z[|z| - 4..]) != outLen {
      return 0;
    }
    n := outLen;
  }
}
