/** The ChaCha20-Poly1305 construction (section 2.8 of RFC 8439) over any block function. */
module Aead {
  import opened Bits
  import opened BitOps
  import opened LittleEndian
  import opened PolyField
  import opened Poly1305
  import opened PolyStream

  type Block64 = s: seq<byte> | |s| == 64 witness seq(64, _ => 0)

  /** Key, counter and nonce to a block of key stream. */
  type BlockFn = (seq<byte>, uint32, seq<byte>) -> Block64

  function XorByte(a: byte, b: byte): (r: byte)
    ensures r == Xor(a, b, 8)
  {
    assert Pow2(8) == 256;
    Xor(a, b, 8)
  }

  lemma XorTwice(a: byte, b: byte)
    ensures XorByte(XorByte(a, b), b) == a
  {
    hide Xor;
    assert Pow2(8) == 256;
    XorAssociates(a, b, b, 8);
    XorSelf(b, 8);
    XorZero(a, 8);
  }

  /** Byte i of the key stream that starts at block first; the counter wraps at 2^32. */
  function StreamByte(f: BlockFn, key: seq<byte>, first: uint32, nonce: seq<byte>, i: nat): byte {
    f(key, (first + i / 64) % 0x1_0000_0000, nonce)[i % 64]
  }

  function Cipher(f: BlockFn, key: seq<byte>, first: uint32, nonce: seq<byte>, text: seq<byte>): (r: seq<byte>)
    ensures |r| == |text|
  {
    seq(|text|, i requires 0 <= i < |text| => XorByte(text[i], StreamByte(f, key, first, nonce, i)))
  }

  /** Enciphering twice gives the text back. */
  lemma CipherTwice(f: BlockFn, key: seq<byte>, first: uint32, nonce: seq<byte>, text: seq<byte>)
    ensures Cipher(f, key, first, nonce, Cipher(f, key, first, nonce, text)) == text
  {
    hide XorByte, StreamByte;
    var twice := Cipher(f, key, first, nonce, Cipher(f, key, first, nonce, text));
    forall i | 0 <= i < |text| ensures twice[i] == text[i] {
      XorTwice(text[i], StreamByte(f, key, first, nonce, i));
    }
  }

  method ChachaXor(f: BlockFn, key: seq<byte>, first: uint32, nonce: seq<byte>, input: seq<byte>, out: array<byte>)
    requires |input| <= out.Length
    modifies out
    ensures out[..|input|] == Cipher(f, key, first, nonce, input)
    ensures out[|input|..] == old(out[|input|..])
  {
    hide XorByte, Cipher, StreamByte, XorAll;
    var pos, counter := 0, first;
    ghost var n := 0;
    ghost var want := Cipher(f, key, first, nonce, input);
    while pos < |input|
      invariant 0 <= pos <= |input| && (pos < |input| ==> pos == 64 * n)
      invariant counter == (first + n) % 0x1_0000_0000
      invariant out[..pos] == want[..pos] && out[|input|..] == old(out[|input|..])
      decreases |input| - pos
    {
      var block := f(key, counter, nonce);
      var chunk := if |input| - pos > 64 then 64 else |input| - pos;
      CipherChunk(f, key, first, nonce, input, n, chunk);
      XorChunk(input[pos..pos + chunk], block, out, pos);
      assert want[..pos + chunk] == want[..pos] + want[pos..pos + chunk];
      NextCounter(first, n);
      counter := (counter as int + 1) % 0x1_0000_0000;
      pos := pos + chunk;
      n := n + 1;
    }
  }

  lemma NextCounter(first: uint32, n: nat)
    ensures ((first + n) % 0x1_0000_0000 + 1) % 0x1_0000_0000 == (first + (n + 1)) % 0x1_0000_0000
  {
  }

  /** data ^ block into out at pos. */
  method XorChunk(data: seq<byte>, block: Block64, out: array<byte>, pos: nat)
    requires |data| <= 64 && pos + |data| <= out.Length
    modifies out
    ensures out[..pos + |data|] == old(out[..pos]) + XorAll(data, block[..|data|])
    ensures forall k | pos + |data| <= k < out.Length :: out[k] == old(out[k])
  {
    hide XorByte;
    for i := 0 to |data|
      invariant out[..pos + i] == old(out[..pos]) + XorAll(data, block[..|data|])[..i]
      invariant forall k | pos + |data| <= k < out.Length :: out[k] == old(out[k])
    {
      out[pos + i] := XorByte(data[i], block[i]);
    }
  }

  function XorAll(a: seq<byte>, b: seq<byte>): (r: seq<byte>)
    requires |a| == |b|
    ensures |r| == |a|
  {
    seq(|a|, i requires 0 <= i < |a| => XorByte(a[i], b[i]))
  }

  lemma CipherChunk(f: BlockFn, key: seq<byte>, first: uint32, nonce: seq<byte>, text: seq<byte>, n: nat, c: nat)
    requires c <= 64 && 64 * n + c <= |text|
    ensures Cipher(f, key, first, nonce, text)[64 * n..64 * n + c] ==
            XorAll(text[64 * n..64 * n + c], f(key, (first + n) % 0x1_0000_0000, nonce)[..c])
  {
    hide XorByte, StreamByte;
    var part := Cipher(f, key, first, nonce, text)[64 * n..64 * n + c];
    var want := XorAll(text[64 * n..64 * n + c], f(key, (first + n) % 0x1_0000_0000, nonce)[..c]);
    forall i | 0 <= i < c ensures part[i] == want[i] {
      StreamIn(f, key, first, nonce, n, i);
    }
  }

  lemma StreamIn(f: BlockFn, key: seq<byte>, first: uint32, nonce: seq<byte>, n: nat, i: nat)
    requires i < 64
    ensures StreamByte(f, key, first, nonce, 64 * n + i) == f(key, (first + n) % 0x1_0000_0000, nonce)[i]
  {
    assert (64 * n + i) / 64 == n && (64 * n + i) % 64 == i;
  }

  /* ---- What is authenticated ---- */

  function Zeros(n: nat): seq<byte> {
    seq(n, _ => 0)
  }

  /** Zero bytes up to a multiple of 16. */
  function PadLen(n: nat): nat {
    (16 - n % 16) % 16
  }

  function Padded(s: seq<byte>): seq<byte> {
    s + Zeros(PadLen(|s|))
  }

  function MacInput(aad: seq<byte>, ct: seq<byte>): seq<byte> {
    Padded(aad) + Padded(ct) + (Bytes(|aad|, 8) + Bytes(|ct|, 8))
  }

  /** Each part ends on a multiple of 16 bytes, filled with fewer than 16 zeros; the length of the additional data
      comes before that of the ciphertext, both as 64-bit little-endian numbers. */
  lemma MacInputLayout(aad: seq<byte>, ct: seq<byte>)
    requires |aad| < 0x1_0000_0000_0000_0000 && |ct| < 0x1_0000_0000_0000_0000
    ensures var m, a, c := MacInput(aad, ct), |Padded(aad)|, |Padded(ct)|;
            && |aad| <= a < |aad| + 16 && a % 16 == 0 && |ct| <= c < |ct| + 16 && c % 16 == 0 && |m| == a + c + 16
            && m[..|aad|] == aad && (forall i | |aad| <= i < a :: m[i] == 0)
            && m[a..a + |ct|] == ct && (forall i | a + |ct| <= i < a + c :: m[i] == 0)
            && Num(m[a + c..a + c + 8]) == |aad| && Num(m[a + c + 8..]) == |ct|
  {
    hide Bytes, Num;
    var m, a, c := MacInput(aad, ct), |Padded(aad)|, |Padded(ct)|;
    PadFills(|aad|);
    PadFills(|ct|);
    NumOfBytes(|aad|, 8);
    NumOfBytes(|ct|, 8);
    assert Power256(8) == 0x1_0000_0000_0000_0000;
    assert m[a + c..a + c + 8] == Bytes(|aad|, 8) && m[a + c + 8..] == Bytes(|ct|, 8);
  }

  lemma PadFills(n: nat)
    ensures PadLen(n) < 16 && (n + PadLen(n)) % 16 == 0
  {
  }

  /** Different data never make the same authenticated string. */
  lemma MacInputOneToOne(aad: seq<byte>, ct: seq<byte>, aad': seq<byte>, ct': seq<byte>)
    requires |aad| < 0x1_0000_0000_0000_0000 && |ct| < 0x1_0000_0000_0000_0000
    requires |aad'| < 0x1_0000_0000_0000_0000 && |ct'| < 0x1_0000_0000_0000_0000
    requires MacInput(aad, ct) == MacInput(aad', ct')
    ensures aad == aad' && ct == ct'
  {
    hide Bytes, Padded;
    var m, m' := MacInput(aad, ct), MacInput(aad', ct');
    var a, a' := Bytes(|aad|, 8), Bytes(|aad'|, 8);
    var c, c' := Bytes(|ct|, 8), Bytes(|ct'|, 8);
    LastTwo(Padded(aad) + Padded(ct), a, c);
    LastTwo(Padded(aad') + Padded(ct'), a', c');
    NumOfBytes(|aad|, 8);
    NumOfBytes(|aad'|, 8);
    NumOfBytes(|ct|, 8);
    NumOfBytes(|ct'|, 8);
    FirstTwo(aad, ct, m);
    FirstTwo(aad', ct', m');
  }

  lemma LastTwo(body: seq<byte>, a: seq<byte>, c: seq<byte>)
    requires |a| == |c| == 8
    ensures var m := body + (a + c); m[|m| - 16..|m| - 8] == a && m[|m| - 8..] == c
  {
  }

  lemma FirstTwo(aad: seq<byte>, ct: seq<byte>, m: seq<byte>)
    requires m == MacInput(aad, ct)
    ensures |Padded(aad)| + |ct| <= |m| && |aad| <= |Padded(aad)| == |aad| + PadLen(|aad|)
    ensures m[..|aad|] == aad && m[|aad| + PadLen(|aad|)..][..|ct|] == ct
  {
    hide Bytes, PadLen;
    var p := Padded(aad);
    assert m[|p|..] == Padded(ct) + (Bytes(|aad|, 8) + Bytes(|ct|, 8));
  }

  /** Feeds the data with its padding and lengths. */
  method MacInputTo(mac: Context, aad: seq<byte>, ct: seq<byte>)
    requires mac.Valid() && |aad| < 0x1_0000_0000_0000_0000 && |ct| < 0x1_0000_0000_0000_0000
    modifies mac, mac.h, mac.buf
    ensures mac.Valid() && mac.Message() == old(mac.Message()) + MacInput(aad, ct)
  {
    hide Context.Valid, Context.Message, Bytes, Padded, St64;
    ghost var start := mac.Message();
    FeedPadded(mac, aad);
    FeedPadded(mac, ct);
    St64IsBytes(|aad|);
    St64IsBytes(|ct|);
    mac.Update(St64(|aad|) + St64(|ct|));
    Regroup4(start, Padded(aad), Padded(ct), Bytes(|aad|, 8) + Bytes(|ct|, 8));
  }

  lemma Regroup4(a: seq<byte>, b: seq<byte>, c: seq<byte>, d: seq<byte>)
    ensures a + b + c + d == a + (b + c + d)
  {
  }

  /** Data and then zeros up to a whole block. */
  method FeedPadded(mac: Context, data: seq<byte>)
    requires mac.Valid()
    modifies mac, mac.h, mac.buf
    ensures mac.Valid() && mac.Message() == old(mac.Message()) + Padded(data)
  {
    hide Context.Valid, Context.Message;
    var pad := PadLen(|data|);
    ghost var start := mac.Message();
    mac.Update(data);
    if pad != 0 {
      mac.Update(Zeros(pad));
    }
    assert mac.Message() == start + Padded(data);
  }

  function St64(v: uint64): (r: seq<byte>)
    ensures |r| == 8
  {
    Le32(v % 0x1_0000_0000) + Le32(v / 0x1_0000_0000)
  }

  lemma St64IsBytes(v: uint64)
    ensures St64(v) == Bytes(v, 8)
  {
    hide Le32, FromLe32, Num, Bytes;
    var s := St64(v);
    Le32RoundTrip(v % 0x1_0000_0000);
    Le32RoundTrip(v / 0x1_0000_0000);
    NumWordAt(s, 0);
    NumWordAt(s, 4);
    assert s[0..] == s && s[0..4] == Le32(v % 0x1_0000_0000) && s[4..8] == Le32(v / 0x1_0000_0000);
    EmptyNum();
    assert s[8..] == [];
    BytesOfNum(s);
  }

  lemma EmptyNum()
    ensures Num([]) == 0
  {
  }

  /* ---- Seal and open ---- */

  function AeadTag(f: BlockFn, key: seq<byte>, nonce: seq<byte>, aad: seq<byte>, ct: seq<byte>): seq<byte> {
    Tag(f(key, 0, nonce)[..32], MacInput(aad, ct))
  }

  /** The ciphertext never uses block 0 of the key stream, as long as the counter does not wrap. */
  lemma TextAvoidsFirstBlock(f: BlockFn, g: BlockFn, key: seq<byte>, nonce: seq<byte>, text: seq<byte>)
    requires |text| <= 64 * 0xFFFF_FFFF
    requires forall c: uint32 | c != 0 :: f(key, c, nonce) == g(key, c, nonce)
    ensures Cipher(f, key, 1, nonce, text) == Cipher(g, key, 1, nonce, text)
  {
    hide XorByte;
    var x, y := Cipher(f, key, 1, nonce, text), Cipher(g, key, 1, nonce, text);
    forall i | 0 <= i < |text| ensures x[i] == y[i] {
      var c: uint32 := (1 + i / 64) % 0x1_0000_0000;
      assert c == 1 + i / 64;
      assert f(key, c, nonce) == g(key, c, nonce);
    }
  }

  /** The key of the authenticator is half of block 0, whatever the other blocks are. */
  lemma TagUsesFirstBlock(f: BlockFn, g: BlockFn, key: seq<byte>, nonce: seq<byte>, aad: seq<byte>, ct: seq<byte>)
    requires f(key, 0, nonce)[..32] == g(key, 0, nonce)[..32]
    ensures AeadTag(f, key, nonce, aad, ct) == AeadTag(g, key, nonce, aad, ct)
  {
    hide Tag, MacInput;
  }

  method MakeTag(f: BlockFn, key: seq<byte>, nonce: seq<byte>, aad: seq<byte>, ct: seq<byte>)
    returns (tag: seq<byte>)
    requires |aad| < 0x1_0000_0000_0000_0000 && |ct| < 0x1_0000_0000_0000_0000
    ensures tag == AeadTag(f, key, nonce, aad, ct) && |tag| == 16
  {
    hide Context.Valid, Context.Message, Tag, MacInput;
    var otk := f(key, 0, nonce);
    var mac := new Context(otk[..32]);
    MacInputTo(mac, aad, ct);
    assert [] + MacInput(aad, ct) == MacInput(aad, ct);
    tag := mac.Final();
  }

  method Seal(f: BlockFn, key: seq<byte>, nonce: seq<byte>, aad: seq<byte>, pt: seq<byte>, ct: array<byte>)
    returns (tag: seq<byte>)
    requires |pt| <= ct.Length && |aad| < 0x1_0000_0000_0000_0000 && |pt| < 0x1_0000_0000_0000_0000
    modifies ct
    ensures ct[..|pt|] == Cipher(f, key, 1, nonce, pt) && ct[|pt|..] == old(ct[|pt|..])
    ensures tag == AeadTag(f, key, nonce, aad, Cipher(f, key, 1, nonce, pt))
  {
    hide Cipher, AeadTag;
    ChachaXor(f, key, 1, nonce, pt, ct);
    tag := MakeTag(f, key, nonce, aad, ct[..|pt|]);
  }

  /** Deciphers exactly when the tag is the right one, and writes nothing otherwise. */
  method Open(f: BlockFn, key: seq<byte>, nonce: seq<byte>, aad: seq<byte>, ct: seq<byte>, expected: seq<byte>,
              pt: array<byte>)
    returns (ok: bool)
    requires |expected| == 16 && |ct| <= pt.Length
    requires |aad| < 0x1_0000_0000_0000_0000 && |ct| < 0x1_0000_0000_0000_0000
    modifies pt
    ensures ok <==> expected == AeadTag(f, key, nonce, aad, ct)
    ensures ok ==> pt[..|ct|] == Cipher(f, key, 1, nonce, ct)
    ensures !ok ==> pt[..] == old(pt[..])
  {
    hide Cipher, AeadTag, Or, Xor;
    var computed := MakeTag(f, key, nonce, aad, ct);
    var diff: byte := 0;
    for i := 0 to 16
      invariant diff == 0 <==> computed[..i] == expected[..i]
    {
      diff := Collect(diff, computed[i], expected[i]);
      assert computed[..i + 1] == computed[..i] + [computed[i]];
      assert expected[..i + 1] == expected[..i] + [expected[i]];
    }
    assert computed[..16] == computed && expected[..16] == expected;
    if diff != 0 {
      return false;
    }
    ChachaXor(f, key, 1, nonce, ct, pt);
    ok := true;
  }

  /** diff | (a ^ b). */
  function Collect(diff: byte, a: byte, b: byte): (r: byte)
    ensures r == 0 <==> diff == 0 && a == b
  {
    assert Pow2(8) == 256;
    XorIsZero(a, b, 8);
    OrIsZero(diff, Xor(a, b, 8), 8);
    Or(diff, Xor(a, b, 8), 8)
  }

  /** What was sealed opens to the same text. */
  method SealThenOpen(f: BlockFn, key: seq<byte>, nonce: seq<byte>, aad: seq<byte>, text: seq<byte>,
                      ct: array<byte>, pt: array<byte>)
    returns (ok: bool)
    requires ct != pt && |text| <= ct.Length && |text| <= pt.Length
    requires |aad| < 0x1_0000_0000_0000_0000 && |text| < 0x1_0000_0000_0000_0000
    modifies ct, pt
    ensures ok && pt[..|text|] == text
  {
    hide Cipher, AeadTag;
    var tag := Seal(f, key, nonce, aad, text, ct);
    CipherTwice(f, key, 1, nonce, text);
    TagLength(f, key, nonce, aad, Cipher(f, key, 1, nonce, text));
    ok := Open(f, key, nonce, aad, ct[..|text|], tag, pt);
  }

  lemma TagLength(f: BlockFn, key: seq<byte>, nonce: seq<byte>, aad: seq<byte>, ct: seq<byte>)
    ensures |AeadTag(f, key, nonce, aad, ct)| == 16
  {
  }
}
