/** Little-endian numbers in byte strings. */
module LittleEndian {
  import opened Bits

  /** Little-endian number. */
  function Num(s: seq<byte>): nat {
    if s == [] then 0 else s[0] as int + 256 * Num(s[1..])
  }

  /** The n-byte little-endian form of v. */
  function Bytes(v: nat, n: nat): (r: seq<byte>)
    ensures |r| == n
  {
    if n == 0 then [] else [v % 256] + Bytes(v / 256, n - 1)
  }

  /** Value of four 32-bit words. */
  function Words(w0: int, w1: int, w2: int, w3: int): int {
    w0 + 0x1_0000_0000 * (w1 + 0x1_0000_0000 * (w2 + 0x1_0000_0000 * w3))
  }

  lemma {:induction false} BytesOfNum(s: seq<byte>)
    ensures Bytes(Num(s), |s|) == s
  {
    if s != [] {
      hide Num;
      NumHead(s);
      BytesOfNum(s[1..]);
      DivUnique(Num(s), 256, Num(s[1..]), s[0]);
    }
  }

  lemma NumHead(s: seq<byte>)
    requires s != []
    ensures Num(s) == s[0] as int + 256 * Num(s[1..])
  {
  }

  lemma {:induction false} NumZeros(s: seq<byte>, k: nat)
    requires k <= |s| && forall i | k <= i < |s| :: s[i] == 0
    ensures Num(s) == Num(s[..k])
  {
    if k > 0 {
      NumZeros(s[1..], k - 1);
      assert s[..k][1..] == s[1..][..k - 1];
    } else if s != [] {
      NumZeros(s[1..], 0);
    }
  }

  lemma NumWord(s: seq<byte>)
    requires |s| >= 4
    ensures Num(s) == FromLe32(s[..4]) + 0x1_0000_0000 * Num(s[4..])
  {
    NumStep(s, 0);
    NumStep(s, 1);
    NumStep(s, 2);
    NumStep(s, 3);
    assert s[0..] == s;
  }

  lemma NumStep(s: seq<byte>, i: nat)
    requires i < |s|
    ensures Num(s[i..]) == s[i] as int + 256 * Num(s[i + 1..])
  {
    assert s[i..][1..] == s[i + 1..];
  }

  function Word(s: seq<byte>, i: nat): uint32
    requires i + 4 <= |s|
  {
    FromLe32(s[i..i + 4])
  }

  lemma NumWords(s: seq<byte>)
    requires |s| >= 16
    ensures Num(s) == Words(Word(s, 0), Word(s, 4), Word(s, 8), Word(s, 12)) +
                      0x1_0000_0000_0000_0000_0000_0000_0000_0000 * Num(s[16..])
  {
    hide Word, Num;
    NumWordAt(s, 0);
    NumWordAt(s, 4);
    NumWordAt(s, 8);
    NumWordAt(s, 12);
    assert s[0..] == s;
  }

  lemma NumWordAt(s: seq<byte>, i: nat)
    requires i + 4 <= |s|
    ensures Num(s[i..]) == Word(s, i) + 0x1_0000_0000 * Num(s[i + 4..])
  {
    hide FromLe32;
    NumWord(s[i..]);
    assert s[i..][..4] == s[i..i + 4] && s[i..][4..] == s[i + 4..];
  }

  lemma {:induction false} NumOfBytes(v: nat, n: nat)
    requires v < Power256(n)
    ensures Num(Bytes(v, n)) == v
  {
    if n > 0 {
      NumOfBytes(v / 256, n - 1);
      assert Bytes(v, n)[1..] == Bytes(v / 256, n - 1);
    }
  }

  function Power256(n: nat): nat {
    if n == 0 then 1 else 256 * Power256(n - 1)
  }

  lemma {:induction false} Power256Add(a: nat, b: nat)
    ensures Power256(a + b) == Power256(a) * Power256(b)
  {
    if a > 0 {
      Power256Add(a - 1, b);
    }
  }

  lemma {:induction false} NumSplit(s: seq<byte>, k: nat)
    requires k <= |s|
    ensures Num(s) == Num(s[..k]) + Power256(k) * Num(s[k..])
  {
    if k == 0 {
      assert s[0..] == s;
    } else {
      hide Power256;
      NumSplit(s[1..], k - 1);
      assert s[..k][1..] == s[1..][..k - 1] && s[k..] == s[1..][k - 1..];
      PowerStep(k, Num(s[k..]));
    }
  }

  lemma PowerStep(k: nat, v: nat)
    requires k > 0
    ensures Power256(k) * v == 256 * (Power256(k - 1) * v)
  {
  }

  /** The number of a byte string is the value of its bits. */
  lemma {:induction false} NumOfBits(s: seq<byte>)
    ensures Num(s) == ValueLsb(BytesToBits(s))
  {
    if s != [] {
      var low, rest := LowBits(s[0], 8), BytesToBits(s[1..]);
      NumOfBits(s[1..]);
      ByteValue(s[0]);
      NextByte(s, 0);
      assert s[0..] == s;
      ValueLsbAppend(low, rest);
      assert Pow2(8) == 256;
    }
  }
}
