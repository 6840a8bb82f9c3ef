/** Copies from earlier output, shared by inflate and LZSS. */
module Lz {
  import opened Bits

  /** Appends len bytes, each equal to the one dist back; the source may overlap the copy. */
  function CopyBack(out: seq<byte>, dist: nat, len: nat): (r: seq<byte>)
    requires 1 <= dist <= |out|
    ensures |r| == |out| + len
    decreases len
  {
    if len == 0 then out else CopyBack(out + [out[|out| - dist]], dist, len - 1)
  }

  /** What was there stays, and every byte copied is the one dist before it. */
  lemma {:induction false} CopyBackIs(out: seq<byte>, dist: nat, len: nat)
    requires 1 <= dist <= |out|
    ensures var r := CopyBack(out, dist, len);
            r[..|out|] == out && forall k | |out| <= k < |r| :: r[k] == r[k - dist]
    decreases len
  {
    if len > 0 {
      var more := out + [out[|out| - dist]];
      CopyBackIs(more, dist, len - 1);
      var r := CopyBack(more, dist, len - 1);
      assert r[..|out|] == r[..|more|][..|out|] == out;
      assert r[|out|] == r[..|more|][|out|] && r[|out| - dist] == r[..|more|][|out| - dist];
    }
  }
}
