/** Where the file system puts its bytes, as other implementations of FAT12 read them. */
module FatLayout {
  import opened Bits
  import opened FatTable
  import opened FatDir
  import opened FatData
  import opened Fat12

  function Field16(s: seq<byte>, i: nat): nat
    requires i + 2 <= |s|
  {
    s[i] as int + 256 * (s[i + 1] as int)
  }

  function Field32(s: seq<byte>, i: nat): nat
    requires i + 4 <= |s|
  {
    Field16(s, i) + 65536 * Field16(s, i + 2)
  }

  /** Two entries of the table are the halves of three little-endian bytes. */
  lemma PackedPair(buf: Sector, k: nat)
    requires 2 * k + 1 <= LAST_CLUSTER
    ensures buf[3 * k] as int + 256 * Field16(buf, 3 * k + 1) == GetEntry(buf, 2 * k) + 4096 * GetEntry(buf, 2 * k + 1)
  {
    assert (2 * k) * 3 / 2 == 3 * k && (2 * k + 1) * 3 / 2 == 3 * k + 1;
    PairParts(buf[3 * k], buf[3 * k + 1], buf[3 * k + 2]);
  }

  lemma PairParts(x: byte, y: byte, z: byte)
    ensures (x as int + 256 * (y as int)) % 4096 + 4096 * ((y as int + 256 * (z as int)) / 16) ==
            x as int + 256 * (y as int + 256 * (z as int))
  {
    var h, l := y as int / 16, y as int % 16;
    DivUnique(x as int + 256 * (y as int), 4096, h, x as int + 256 * l);
    DivUnique(y as int + 256 * (z as int), 16, h + 16 * z as int, l);
  }

  /** The first cluster is the 16-bit field at 26 of an entry, the size the 32-bit field at 28; the rest stays. */
  lemma ExtentLayout(e: Entry, cluster: nat, size: uint32)
    requires cluster < 0x1_0000
    ensures var r := WithExtent(e, cluster, size);
            r[..26] == e[..26] && Field16(r, 26) == cluster && Field32(r, 28) == size
  {
    Le32Fields(size);
  }

  lemma Le32Fields(v: uint32)
    ensures Field32(Le32(v), 0) == v
  {
    Le32RoundTrip(v);
  }

  /** A new entry holds the name, the archive attribute and zeros. */
  lemma NewEntryLayout(name: Name)
    ensures var e := NewEntry(name);
            && e[..11] == name && e[11] == 0x20 && Field16(e, 26) == 0 && Field32(e, 28) == 0
            && forall i | 12 <= i < 32 :: e[i] == 0
  {
  }

  /** The parameter block of the boot sector describes the layout: one reserved sector, two copies of the table
      with room for every cluster, a directory of 64 entries, then the clusters to the end of the flash. */
  lemma Geometry()
    ensures var b := BootSector();
            var size, perCluster, reserved, fats := Field16(b, 11), b[13] as int, Field16(b, 14), b[16] as int;
            var entries, total, fatSize := Field16(b, 17), Field16(b, 19), Field16(b, 22);
            && size == 512 && reserved == 1 && fats == 2 && fatSize == 1 && entries == SLOTS && total == SECTORS
            && reserved + fats * fatSize == ROOT_SECTOR
            && 32 * entries == size * (FIRST_DATA_SECTOR - ROOT_SECTOR)
            && total - FIRST_DATA_SECTOR == perCluster * TOTAL_CLUSTERS
            && 3 * (TOTAL_CLUSTERS + 2) <= 2 * size * fatSize
  {
    var b := BootSector();
    assert b[11] == 0 && b[12] == 2 && b[13] == 1 && b[14] == 1 && b[15] == 0 && b[16] == 2 && b[17] == 64;
    assert b[18] == 0 && b[19] == 128 && b[20] == 0 && b[22] == 1 && b[23] == 0;
  }

  /** The clusters are the sectors behind the directory, in order. */
  lemma ClusterSectors(c: nat)
    requires IsCluster(c)
    ensures FIRST_DATA_SECTOR <= ClusterToSector(c) < SECTORS
    ensures ClusterToSector(2) == FIRST_DATA_SECTOR && ClusterToSector(LAST_CLUSTER) == SECTORS - 1
    ensures c < LAST_CLUSTER ==> ClusterToSector(c + 1) == ClusterToSector(c) + 1
  {
  }

  /** The reserved entries hold the media byte and an end mark. */
  lemma ReservedEntries()
    ensures GetEntry(EmptyFat(), 0) == 0xF00 + BootSector()[21] as int && GetEntry(EmptyFat(), 1) == EOC
  {
    assert BootSector()[21] == 0xF8;
    assert EmptyFat()[0] == 0xF8 && EmptyFat()[1] == 0xFF && EmptyFat()[2] == 0xFF;
  }

  /** An entry is unused when it starts with 0 or with the deleted mark 0xE5; a chain ends with 0xFFF. */
  lemma Marks(e: Entry, buf: Sector, c: nat)
    requires IsCluster(c)
    ensures Unused(e) <==> e[0] == 0x00 || e[0] == 0xE5
    ensures IsChain(buf, [c]) <==> GetEntry(buf, c) == 0xFFF
  {
    assert [c][0] == c;
  }
}
