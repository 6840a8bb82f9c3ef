/** The inflate state: bit reader over the input, byte writer over the output. */
module InflateReader {
  import opened Bits

  const ERR_TRUNC := -1
  const ERR_OVERFLOW := -2
  const ERR_BADCODE := -3
  const ERR_BADBLOCK := -4
  const ERR_BACKREF := -6

  /** The first n bits, with zeros where there are none. */
  function Take(bs: seq<bit>, n: nat): (r: seq<bit>)
    ensures |r| == n
  {
    seq(n, k requires 0 <= k < n => if k < |bs| then bs[k] else 0)
  }

  function Drop(bs: seq<bit>, n: nat): (r: seq<bit>)
    ensures |r| == if n <= |bs| then |bs| - n else 0
  {
    if n <= |bs| then bs[n..] else []
  }

  /** The error state after reading n bits of bs. */
  function ErrAfter(err: int, bs: seq<bit>, n: nat): int {
    if n <= |bs| then err else ERR_TRUNC
  }

  lemma DropDrop(bs: seq<bit>, a: nat, b: nat)
    ensures Drop(Drop(bs, a), b) == Drop(bs, a + b)
  {
  }

  /** Reading a bits and then b bits reads a + b bits. */
  lemma ReadOn(err: int, bs: seq<bit>, a: nat, b: nat)
    ensures Drop(Drop(bs, a), b) == Drop(bs, a + b) && Drop(bs, 0) == bs
    ensures ErrAfter(ErrAfter(err, bs, a), Drop(bs, a), b) == ErrAfter(err, bs, a + b)
  {
  }

  lemma TakeLow(bs: seq<bit>, rest: seq<bit>)
    ensures Take(bs + rest, |bs|) == bs && Drop(bs + rest, |bs|) == rest && |bs| <= |bs + rest|
  {
  }

  lemma ReadsLow(v: nat, n: nat, rest: seq<bit>)
    requires v < Pow2(n)
    ensures ValueLsb(Take(LowBits(v, n) + rest, n)) == v && Drop(LowBits(v, n) + rest, n) == rest
    ensures n <= |LowBits(v, n) + rest|
  {
    TakeLow(LowBits(v, n), rest);
    LowBitsValue(v, n);
  }

  lemma LowWasRead(bs: seq<bit>, n: nat)
    requires n <= |bs|
    ensures ValueLsb(Take(bs, n)) < Pow2(n) && bs == LowBits(ValueLsb(Take(bs, n)), n) + Drop(bs, n)
  {
    hide ValueLsb, LowBits, Pow2;
    assert Take(bs, n) == bs[..n];
    ValueLsbBound(bs[..n]);
    LowBitsOfValue(bs[..n]);
  }

  /** The whole bytes that are left once the current byte is given up. */
  function Aligned(bs: seq<bit>): (r: seq<bit>)
    ensures |r| <= |bs|
  {
    bs[|bs| % 8..]
  }

  class Inf {
    const input: seq<byte>
    var inPos: nat
    const out: array<byte>
    var outPos: nat
    const outMax: nat
    var bitBuf: nat
    var bitCnt: nat
    var err: int

    ghost predicate Valid()
      reads this
    {
      && inPos <= |input| && outPos <= outMax <= out.Length && outMax < 0x8000_0000
      && bitCnt < 8 && bitBuf < Pow2(bitCnt)
    }

    /** The bits still to be read, in stream order. */
    ghost function Pending(): (r: seq<bit>)
      requires Valid()
      reads this
    {
      LowBits(bitBuf, bitCnt) + BytesToBits(input[inPos..])
    }

    /** The bytes written so far. */
    ghost function Written(): seq<byte>
      requires Valid()
      reads this, out
    {
      out[..outPos]
    }

    constructor (input: seq<byte>, out: array<byte>, outMax: nat)
      requires outMax <= out.Length && outMax < 0x8000_0000
      ensures Valid() && this.input == input && this.out == out && this.outMax == outMax
      ensures err == 0 && Pending() == BytesToBits(input) && Written() == []
    {
      this.input := input;
      this.out := out;
      this.outMax := outMax;
      inPos, outPos, bitBuf, bitCnt, err := 0, 0, 0, 0, 0;
      new;
      assert input[0..] == input;
    }

    method ReadBit() returns (b: bit)
      requires Valid()
      modifies `inPos, `bitBuf, `bitCnt, `err
      ensures Valid()
      ensures b == Take(old(Pending()), 1)[0]
      ensures Pending() == Drop(old(Pending()), 1) && err == ErrAfter(old(err), old(Pending()), 1)
    {
      hide LowBits, BytesToBits;
      if bitCnt == 0 {
        if inPos >= |input| {
          err := ERR_TRUNC;
          return 0;
        }
        NextByte(input, inPos);
        bitBuf := input[inPos];
        inPos := inPos + 1;
        bitCnt := 8;
      }
      ShiftOut(bitBuf, bitCnt, BytesToBits(input[inPos..]));
      b := bitBuf % 2;
      bitBuf := bitBuf / 2;
      bitCnt := bitCnt - 1;
    }

    /** Reads n bits, least significant first. */
    method Bits(n: nat) returns (val: nat)
      requires Valid()
      modifies `inPos, `bitBuf, `bitCnt, `err
      ensures Valid()
      ensures val == ValueLsb(Take(old(Pending()), n))
      ensures Pending() == Drop(old(Pending()), n) && err == ErrAfter(old(err), old(Pending()), n)
    {
      val := 0;
      ghost var bs := Pending();
      assert Take(bs, n)[..0] == [];
      for i := 0 to n
        invariant Valid()
        invariant val == ValueLsb(Take(bs, n)[..i]) < Pow2(i)
        invariant Pending() == Drop(bs, i) && err == ErrAfter(old(err), bs, i)
      {
        var b := ReadBit();
        DropDrop(bs, i, 1);
        assert b == Take(bs, n)[i];
        NextBit(Take(bs, n), i);
        val := val + b * Pow2(i);
      }
      assert Take(bs, n)[..n] == Take(bs, n);
    }

    /** Gives up the rest of the current byte and reads the next one, 0 if there is none. */
    method ReadByte() returns (b: byte)
      requires Valid()
      modifies `inPos, `bitBuf, `bitCnt, `err
      ensures Valid()
      ensures b == ValueLsb(Take(Aligned(old(Pending())), 8))
      ensures Pending() == Drop(Aligned(old(Pending())), 8)
      ensures err == ErrAfter(old(err), Aligned(old(Pending())), 8)
    {
      AlignedPending();
      bitBuf := 0;
      bitCnt := 0;
      if inPos >= |input| {
        err := ERR_TRUNC;
        NoBits();
        return 0;
      }
      NextByte(input, inPos);
      b := input[inPos];
      inPos := inPos + 1;
      ByteFirst(b, BytesToBits(input[inPos..]));
    }

    lemma AlignedPending()
      requires Valid()
      ensures Aligned(Pending()) == BytesToBits(input[inPos..])
    {
      AlignedBits(LowBits(bitBuf, bitCnt), input[inPos..]);
    }

    method SetErr(code: int)
      requires Valid()
      modifies `err
      ensures Valid() && err == code && Pending() == old(Pending()) && Written() == old(Written())
    {
      err := code;
    }

    method Emit(b: byte)
      requires Valid()
      modifies `outPos, `err, out
      ensures Valid() && Pending() == old(Pending())
      ensures old(outPos) < outMax ==> Written() == old(Written()) + [b] && err == old(err)
      ensures old(outPos) >= outMax ==> Written() == old(Written()) && err == ERR_OVERFLOW
    {
      if outPos >= outMax {
        err := ERR_OVERFLOW;
        return;
      }
      out[outPos] := b;
      outPos := outPos + 1;
    }
  }

  lemma ShiftOut(buf: nat, cnt: nat, rest: seq<bit>)
    requires cnt > 0
    ensures var bs := LowBits(buf, cnt) + rest;
            bs[0] == buf % 2 && bs[1..] == LowBits(buf / 2, cnt - 1) + rest
  {
  }

  lemma AlignedBits(low: seq<bit>, bytes: seq<byte>)
    requires |low| < 8
    ensures Aligned(low + BytesToBits(bytes)) == BytesToBits(bytes)
  {
    var bs := low + BytesToBits(bytes);
    assert |bs| == |low| + 8 * |bytes|;
    assert |bs| % 8 == |low|;
  }

  lemma ByteFirst(b: byte, rest: seq<bit>)
    ensures ValueLsb(Take(LowBits(b, 8) + rest, 8)) == b
    ensures Drop(LowBits(b, 8) + rest, 8) == rest
  {
    assert Take(LowBits(b, 8) + rest, 8) == LowBits(b, 8);
    ByteValue(b);
  }

  lemma NoBits()
    ensures ValueLsb(Take([], 8)) == 0
  {
    AllZeros(Take([], 8));
  }

  lemma {:induction false} AllZeros(bs: seq<bit>)
    requires forall k | 0 <= k < |bs| :: bs[k] == 0
    ensures ValueLsb(bs) == 0
  {
    if bs != [] {
      AllZeros(bs[1..]);
    }
  }

  /** One more bit above those already read. */
  lemma NextBit(bs: seq<bit>, i: nat)
    requires i < |bs| && ValueLsb(bs[..i]) < Pow2(i)
    ensures ValueLsb(bs[..i + 1]) == ValueLsb(bs[..i]) + bs[i] * Pow2(i) < Pow2(i + 1)
  {
    assert bs[..i + 1] == bs[..i] + [bs[i]];
    ValueLsbAppend(bs[..i], [bs[i]]);
    assert ValueLsb([bs[i]]) == bs[i];
    ValueLsbBound(bs[..i + 1]);
  }
}
