/** The streaming BLAKE2s context (section 3.3 of RFC 7693, without a key) over any compression function. */
module Blake2s {
  import opened Bits
  import opened BitOps

  type Words8 = s: seq<uint32> | |s| == 8 witness seq(8, _ => 0)

  type Block = s: seq<byte> | |s| == 64 witness seq(64, _ => 0)

  /** Chained state, block, low and high counter words and the final flag. */
  type Compress = (Words8, Block, uint32, uint32, bool) -> Words8

  const IV: Words8 := [0x6a09e667, 0xbb67ae85, 0x3c6ef372, 0xa54ff53a, 0x510e527f, 0x9b05688c, 0x1f83d9ab, 0x5be0cd19]

  /* ---- One shot ---- */

  /** The state before any block, for a digest of outlen bytes. */
  function Start(outlen: nat): Words8
    requires outlen <= 32
  {
    hide Xor, Or;
    WordPower();
    IV[0 := Xor(IV[0], Or(0x01010000, outlen, 32), 32)]
  }

  lemma WordPower()
    ensures Pow2(32) == 0x1_0000_0000
  {
    assert Pow2(8) == 0x100;
    Pow2Add(8, 8);
    Pow2Add(16, 16);
  }

  function Low32(n: nat): uint32 {
    n % 0x1_0000_0000
  }

  function High32(n: nat): uint32 {
    n / 0x1_0000_0000 % 0x1_0000_0000
  }

  /** Bytes compressed before the last block; the last block is never empty but for an empty message. */
  function Behind(n: nat): (k: nat)
    ensures k <= n <= k + 64 && k % 64 == 0 && (n == k ==> n == 0)
  {
    if n == 0 then 0 else (n - 1) / 64 * 64
  }

  /** The chained state after whole blocks, each with the count of bytes so far. */
  function Chain(f: Compress, outlen: nat, msg: seq<byte>): Words8
    requires outlen <= 32 && |msg| % 64 == 0
  {
    if msg == [] then Start(outlen)
    else
      var n := |msg|;
      f(Chain(f, outlen, msg[..n - 64]), msg[n - 64..], Low32(n), High32(n), false)
  }

  function Padded(part: seq<byte>): Block
    requires |part| <= 64
  {
    part + seq(64 - |part|, _ => 0)
  }

  function WordsBytes(h: seq<uint32>): (r: seq<byte>)
    ensures |r| == 4 * |h|
  {
    if h == [] then [] else WordsBytes(h[..|h| - 1]) + Le32(h[|h| - 1])
  }

  /** The digest of a whole message. */
  function Digest(f: Compress, outlen: nat, msg: seq<byte>): (r: seq<byte>)
    requires outlen <= 32
    ensures |r| == outlen
  {
    var k := Behind(|msg|);
    var h := f(Chain(f, outlen, msg[..k]), Padded(msg[k..]), Low32(|msg|), High32(|msg|), true);
    WordsBytes(h)[..outlen]
  }

  /* ---- Streaming ---- */

  class Context {
    const f: Compress
    const h: array<uint32>
    const buf: array<byte>
    var ctrLo: uint32
    var ctrHi: uint32
    var buflen: nat
    const outlen: nat

    ghost predicate Shape() {
      h.Length == 8 && buf.Length == 64 && (h as object) != buf && 1 <= outlen <= 32
    }

    /** k bytes of msg are compressed, the rest waits in a buffer that is zero behind it. */
    ghost predicate Split(msg: seq<byte>, k: nat)
      reads this, h, buf
      ensures Split(msg, k) ==> Shape() && k <= |msg| && buflen == |msg| - k <= 64
    {
      && Shape() && k <= |msg| <= k + 64 && k % 64 == 0
      && buflen == |msg| - k && buf[..] == Padded(msg[k..])
      && h[..] == Chain(f, outlen, msg[..k])
      && ctrLo == Low32(k) && ctrHi == High32(k)
    }

    /** Every field, as determined by the bytes fed. */
    ghost predicate Holds(msg: seq<byte>)
      reads this, h, buf
    {
      Split(msg, Behind(|msg|))
    }

    constructor (compress: Compress, len: nat)
      requires 1 <= len <= 32
      ensures Holds([]) && f == compress && outlen == len && fresh(h) && fresh(buf)
    {
      f := compress;
      outlen := len;
      h := new uint32[8](i requires 0 <= i < 8 => Start(len)[i]);
      buf := new byte[64](_ => 0);
      ctrLo, ctrHi, buflen := 0, 0, 0;
      new;
      assert h[..] == Start(len);
      assert buf[..] == Padded([]);
    }

    /** The counter goes on by n bytes, with its carry. */
    method Count(n: nat, ghost k: nat)
      requires n <= 64 && ctrLo == Low32(k) && ctrHi == High32(k)
      modifies `ctrLo, `ctrHi
      ensures ctrLo == Low32(k + n) && ctrHi == High32(k + n)
    {
      CountCarry(k, n);
      ctrLo := (ctrLo as int + n) % 0x1_0000_0000;
      if ctrLo < n {
        ctrHi := (ctrHi as int + 1) % 0x1_0000_0000;
      }
    }

    method Store(words: Words8)
      requires Shape()
      modifies h
      ensures h[..] == words
    {
      for i := 0 to 8
        invariant h[..i] == words[..i]
      {
        h[i] := words[i];
      }
      assert words[..8] == words;
    }

    method Copy(data: seq<byte>)
      requires Shape() && buflen + |data| <= 64
      modifies buf
      ensures buf[..buflen] == old(buf[..buflen]) && buf[buflen..buflen + |data|] == data
      ensures buf[buflen + |data|..] == old(buf[buflen + |data|..])
    {
      for i := 0 to |data|
        invariant buf[..buflen] == old(buf[..buflen]) && buf[buflen..buflen + i] == data[..i]
        invariant buf[buflen + |data|..] == old(buf[buflen + |data|..])
      {
        buf[buflen + i] := data[i];
      }
    }

    method Clear()
      requires Shape()
      modifies buf
      ensures buf[..] == Padded([])
    {
      for i := 0 to 64
        invariant forall j | 0 <= j < i :: buf[j] == 0
      {
        buf[i] := 0;
      }
    }

    /** A full buffer with more to come is compressed; the buffer is empty and zero again. */
    method Flush(data: seq<byte>, ghost msg: seq<byte>, ghost k: nat)
      requires Split(msg, k) && |data| > 64 - buflen
      modifies this, h, buf
      ensures Split(msg + data[..64 - old(buflen)], k + 64) && buflen == 0
    {
      hide Low32, High32, Chain, Padded, Behind;
      var room := 64 - buflen;
      ghost var all := msg + data[..room];
      PaddedParts(msg[k..]);
      Copy(data[..room]);
      FullBlock(msg, k, data[..room], buf[..]);
      Count(64, k);
      ChainStep(f, outlen, all);
      assert all[..|all| - 64] == msg[..k];
      var words := f(h[..], buf[..], ctrLo, ctrHi, false);
      Store(words);
      buflen := 0;
      Clear();
      assert all[..k + 64] == all && all[k + 64..] == [];
    }

    /** The last bytes fit the buffer. */
    method Append(data: seq<byte>, ghost msg: seq<byte>, ghost k: nat)
      requires Split(msg, k) && |data| <= 64 - buflen
      modifies `buflen, buf
      ensures Split(msg + data, k)
    {
      hide Low32, High32, Chain;
      PaddedParts(msg[k..]);
      Copy(data);
      StillPadded(msg, k, data, buf[..]);
      buflen := buflen + |data|;
      assert (msg + data)[..k] == msg[..k];
    }

    /** blake2s_update: the context is that of the longer message. */
    method Update(data: seq<byte>, ghost msg: seq<byte>)
      requires Holds(msg)
      modifies this, h, buf
      ensures Holds(msg + data)
    {
      hide Split;
      var pos := 0;
      ghost var k := Behind(|msg|);
      assert msg + data[..0] == msg;
      while |data| - pos > 0
        invariant 0 <= pos <= |data| && Split(msg + data[..pos], k) && k % 64 == 0
        invariant pos == |data| ==> k == Behind(|msg + data|)
        decreases |data| - pos, buflen
      {
        var rest := data[pos..];
        ghost var sofar := msg + data[..pos];
        if |rest| > 64 - buflen {
          var room := 64 - buflen;
          Flush(rest, sofar, k);
          assert sofar + rest[..room] == msg + data[..pos + room];
          k := k + 64;
          pos := pos + room;
        } else {
          Append(rest, sofar, k);
          assert sofar + rest == msg + data[..|data|];
          pos := |data|;
          BehindIs(|msg + data|, k);
        }
      }
      assert data[..pos] == data;
    }

    /** blake2s_final: the digest of everything fed. */
    method Final(ghost msg: seq<byte>) returns (out: seq<byte>)
      requires Holds(msg)
      modifies this, h
      ensures out == Digest(f, outlen, msg)
    {
      hide Low32, High32, Chain;
      Count(buflen, Behind(|msg|));
      var words := f(h[..], buf[..], ctrLo, ctrHi, true);
      Store(words);
      out := [];
      for i := 0 to outlen
        invariant h[..] == words && out == WordsBytes(words)[..i]
      {
        WordByte(words, i);
        out := out + [ByteOf(h[i / 4], i % 4)];
      }
    }
  }

  /** Byte j of a word. */
  function ByteOf(w: uint32, j: nat): byte
    requires j < 4
  {
    Le32(w)[j]
  }

  lemma {:induction false} WordByte(h: seq<uint32>, i: nat)
    requires i < 4 * |h|
    ensures WordsBytes(h)[i] == ByteOf(h[i / 4], i % 4)
  {
    hide Le32;
    var n := |h| - 1;
    if i / 4 < n {
      WordByte(h[..n], i);
    } else {
      assert i / 4 == n;
    }
  }

  lemma StillPadded(msg: seq<byte>, k: nat, data: seq<byte>, block: seq<byte>)
    requires k <= |msg| && |msg| - k + |data| <= 64 && |block| == 64
    requires block[..|msg| - k] == msg[k..] && block[|msg| - k..|msg| - k + |data|] == data
    requires block[|msg| - k + |data|..] == Padded(msg[k..])[|msg| - k + |data|..]
    ensures block == Padded((msg + data)[k..])
  {
    var n := |msg| - k + |data|;
    assert (msg + data)[k..] == msg[k..] + data;
    assert block[..n] == block[..|msg| - k] + block[|msg| - k..n];
    assert block == block[..n] + block[n..];
  }

  lemma BehindIs(n: nat, k: nat)
    requires k % 64 == 0 && k < n <= k + 64
    ensures Behind(n) == k
  {
  }

  /** Any split into updates gives the digest of the whole. */
  method DigestOfParts(f: Compress, outlen: nat, parts: seq<seq<byte>>) returns (out: seq<byte>)
    requires 1 <= outlen <= 32
    ensures out == Digest(f, outlen, Concat(parts))
  {
    hide Context.Holds, Digest;
    var ctx := new Context(f, outlen);
    for i := 0 to |parts|
      invariant ctx.Holds(Concat(parts[..i])) && ctx.f == f && ctx.outlen == outlen
      invariant fresh(ctx) && fresh(ctx.h) && fresh(ctx.buf)
    {
      assert parts[..i + 1][..i] == parts[..i];
      ctx.Update(parts[i], Concat(parts[..i]));
    }
    assert parts[..|parts|] == parts;
    out := ctx.Final(Concat(parts));
  }

  lemma CountCarry(k: nat, n: nat)
    requires n <= 64
    ensures Low32(k + n) == (Low32(k) + n) % 0x1_0000_0000
    ensures High32(k + n) == (High32(k) + (if (Low32(k) + n) % 0x1_0000_0000 < n then 1 else 0)) % 0x1_0000_0000
  {
    var q, r := k / 0x1_0000_0000, k % 0x1_0000_0000;
    assert k == 0x1_0000_0000 * q + r;
    if r + n < 0x1_0000_0000 {
      DivUnique(k + n, 0x1_0000_0000, q, r + n);
    } else {
      DivUnique(k + n, 0x1_0000_0000, q + 1, r + n - 0x1_0000_0000);
      DivUnique(r + n, 0x1_0000_0000, 1, r + n - 0x1_0000_0000);
    }
  }

  lemma PaddedParts(part: seq<byte>)
    requires |part| <= 64
    ensures Padded(part)[..|part|] == part && forall i | |part| <= i < 64 :: Padded(part)[i] == 0
  {
  }

  lemma FullBlock(msg: seq<byte>, k: nat, more: seq<byte>, block: seq<byte>)
    requires k <= |msg| && |block| == 64 && |msg| - k + |more| == 64
    requires block[..|msg| - k] == msg[k..] && block[|msg| - k..] == more
    ensures block == (msg + more)[k..]
  {
    assert block == block[..|msg| - k] + block[|msg| - k..];
  }

  lemma ChainStep(f: Compress, outlen: nat, msg: seq<byte>)
    requires outlen <= 32 && |msg| % 64 == 0 && msg != []
    ensures |msg| >= 64
    ensures var n := |msg|;
            Chain(f, outlen, msg) == f(Chain(f, outlen, msg[..n - 64]), msg[n - 64..], Low32(n), High32(n), false)
  {
  }
}
