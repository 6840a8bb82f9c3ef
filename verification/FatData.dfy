/** File contents in the data sectors, one cluster per sector. */
module FatData {
  import opened Bits
  import opened FatTable
  import opened FatDir

  const FIRST_DATA_SECTOR := 7

  function ClusterToSector(c: nat): nat
    requires IsCluster(c)
  {
    FIRST_DATA_SECTOR + (c - 2)
  }

  function Min(a: nat, b: nat): nat {
    if a < b then a else b
  }

  /** The i-th 512 bytes of d, less at its end. */
  function Piece(d: seq<byte>, i: nat): (r: seq<byte>)
    ensures |r| <= 512
  {
    d[Min(512 * i, |d|)..Min(512 * (i + 1), |d|)]
  }

  ghost predicate PieceOk(flash: Flash, c: nat, d: seq<byte>, i: nat) {
    IsCluster(c) && Piece(d, i) <= flash[ClusterToSector(c)]
  }

  /** The clusters hold d from their start, with room after it. */
  ghost predicate Held(flash: Flash, ch: seq<nat>, d: seq<byte>) {
    |d| <= 512 * |ch| && forall i | 0 <= i < |ch| :: PieceOk(flash, ch[i], d, i)
  }

  /** The clusters hold d and no cluster is to spare. */
  ghost predicate Stored(flash: Flash, ch: seq<nat>, d: seq<byte>) {
    Held(flash, ch, d) && |ch| == (|d| + 511) / 512
  }

  /** Bytes b at offset off of a sector. */
  function Patch(sec: Sector, off: nat, b: seq<byte>): Sector
    requires off + |b| <= 512
  {
    sec[..off] + b + sec[off + |b|..]
  }

  /** Sectors outside the chain do not matter. */
  lemma HeldElsewhere(flash: Flash, ch: seq<nat>, d: seq<byte>, i: nat, sec: Sector)
    requires Held(flash, ch, d) && i < SECTORS && (i < FIRST_DATA_SECTOR || i - 5 !in ch)
    ensures Held(flash[i := sec], ch, d)
  {
    hide Piece;
    forall j | 0 <= j < |ch| ensures PieceOk(flash[i := sec], ch[j], d, j) {
      assert PieceOk(flash, ch[j], d, j);
      assert ch[j] in ch;
    }
  }

  lemma HeldPrefix(flash: Flash, ch: seq<nat>, d: seq<byte>, n: nat)
    requires Held(flash, ch, d) && n <= |d|
    ensures Held(flash, ch, d[..n])
  {
    forall j | 0 <= j < |ch| ensures PieceOk(flash, ch[j], d[..n], j) {
      assert PieceOk(flash, ch[j], d, j);
      PiecePrefix(d, n, j);
    }
  }

  lemma PiecePrefix(d: seq<byte>, n: nat, j: nat)
    requires n <= |d|
    ensures Piece(d[..n], j) <= Piece(d, j)
  {
  }

  lemma HeldMore(flash: Flash, ch: seq<nat>, d: seq<byte>, c: nat)
    requires Held(flash, ch, d) && IsCluster(c)
    ensures Held(flash, ch + [c], d)
  {
    hide Piece;
    PieceBeyond(d, |ch|);
    forall j | 0 <= j < |ch| + 1 ensures PieceOk(flash, (ch + [c])[j], d, j) {
      assert j < |ch| ==> PieceOk(flash, ch[j], d, j);
    }
  }

  lemma PieceBeyond(d: seq<byte>, i: nat)
    requires |d| <= 512 * i
    ensures Piece(d, i) == []
  {
  }

  /** Writing the next bytes into the last cluster appends them. */
  lemma WriteAppends(flash: Flash, ch: seq<nat>, d: seq<byte>, b: seq<byte>)
    requires Held(flash, ch, d) && |ch| == |d| / 512 + 1 && |d| % 512 + |b| <= 512
    requires forall i | 0 <= i < |ch| - 1 :: ch[i] != ch[|ch| - 1]
    ensures IsCluster(ch[|ch| - 1])
    ensures var s := ClusterToSector(ch[|ch| - 1]);
            Held(flash[s := Patch(flash[s], |d| % 512, b)], ch, d + b)
  {
    hide Piece, Patch;
    var n := |ch| - 1;
    assert PieceOk(flash, ch[n], d, n);
    var s := ClusterToSector(ch[n]);
    var flash' := flash[s := Patch(flash[s], |d| % 512, b)];
    forall j | 0 <= j < |ch| ensures PieceOk(flash', ch[j], d + b, j) {
      assert PieceOk(flash, ch[j], d, j);
      if j < n {
        EarlierPiece(d, b, j);
      } else {
        LastPiece(flash[s], d, b, n);
      }
    }
  }

  lemma EarlierPiece(d: seq<byte>, b: seq<byte>, j: nat)
    requires 512 * (j + 1) <= |d|
    ensures Piece(d + b, j) == Piece(d, j)
  {
  }

  lemma LastPiece(sec: Sector, d: seq<byte>, b: seq<byte>, n: nat)
    requires n == |d| / 512 && |d| % 512 + |b| <= 512 && Piece(d, n) <= sec
    ensures Piece(d + b, n) <= Patch(sec, |d| % 512, b)
  {
    var off := |d| % 512;
    assert Piece(d, n) == d[512 * n..];
    assert Piece(d + b, n) == d[512 * n..] + b;
    assert Patch(sec, off, b)[..off + |b|] == sec[..off] + b;
  }

  /** Reading inside one cluster. */
  lemma ReadsPiece(flash: Flash, ch: seq<nat>, d: seq<byte>, pos: nat, n: nat)
    requires Stored(flash, ch, d) && pos + n <= |d| && pos % 512 + n <= 512 && pos < |d|
    ensures pos / 512 < |ch| && IsCluster(ch[pos / 512])
    ensures flash[ClusterToSector(ch[pos / 512])][pos % 512..pos % 512 + n] == d[pos..pos + n]
  {
    var i := pos / 512;
    assert PieceOk(flash, ch[i], d, i);
    var p := Piece(d, i);
    assert p[pos % 512..pos % 512 + n] == d[pos..pos + n];
    PrefixSlice(p, flash[ClusterToSector(ch[i])], pos % 512, n);
  }

  lemma PrefixSlice(p: seq<byte>, s: seq<byte>, off: nat, n: nat)
    requires p <= s && off + n <= |p|
    ensures s[off..off + n] == p[off..off + n]
  {
    assert s[..|p|] == p;
  }
}
