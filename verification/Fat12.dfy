/** The FAT12 file system on a 128-sector flash, with its write-back table cache. */
module Fat12 {
  import opened Bits
  import opened FatTable
  import opened FatDir
  import opened FatData

  /** An open file. */
  class Handle {
    var firstCluster: nat
    var curCluster: nat
    var fileSize: uint32
    var pos: uint32
    var dirSector: nat
    var dirIndex: nat
    var writable: bool

    constructor ()
      ensures !writable
    {
      firstCluster, curCluster, fileSize, pos, dirSector, dirIndex, writable := 0, 0, 0, 0, 0, 0, false;
    }

    /** The first cluster of the chain. */
    method SetFirst(c: nat, ghost k: nat, ghost x: seq<byte>)
      requires Cursor(this, k, [], x)
      modifies `firstCluster, `curCluster
      ensures Cursor(this, k, [c], x)
    {
      firstCluster := c;
      curCluster := c;
    }

    /** The next cluster of the chain. */
    method SetNext(c: nat, ghost k: nat, ghost ch: seq<nat>, ghost x: seq<byte>)
      requires Cursor(this, k, ch, x) && ch != []
      modifies `curCluster
      ensures Cursor(this, k, ch + [c], x)
    {
      curCluster := c;
    }

    /** A fresh writer of slot k. */
    method Begin(k: nat)
      requires k < SLOTS
      modifies this
      ensures Cursor(this, k, [], []) && pos == 0 && fileSize == 0 && writable
    {
      firstCluster, curCluster, fileSize, pos := 0, 0, 0, 0;
      dirSector, dirIndex, writable := ROOT_SECTOR + k / 16, k % 16, true;
    }
  }

  function Head(ch: seq<nat>): nat {
    if ch == [] then 0 else ch[0]
  }

  function Last(ch: seq<nat>): nat {
    if ch == [] then 0 else ch[|ch| - 1]
  }

  /** A slot that is no file has no clusters; the entry of a closed file points to its chain. */
  ghost predicate SlotOk(disk: Flash, ch: seq<nat>, d: seq<byte>, k: nat, writing: bool)
    requires k < SLOTS
  {
    && Stored(disk, ch, d)
    && (!Live(disk, k) ==> ch == [] && !writing)
    && (Live(disk, k) && !writing ==> ClusterOf(Slot(disk, k)) == Head(ch))
  }

  /** All slots but one, if except is below 64. */
  ghost predicate SlotsOk(disk: Flash, chains: seq<seq<nat>>, data: seq<seq<byte>>, writing: set<nat>, except: nat) {
    && |chains| == SLOTS && |data| == SLOTS
    && forall k | 0 <= k < SLOTS && k != except :: SlotOk(disk, chains[k], data[k], k, k in writing)
  }

  /** A write handle stands at the end of the chain of its slot. */
  ghost predicate Cursor(h: Handle, k: nat, ch: seq<nat>, d: seq<byte>)
    reads h
  {
    && h.writable && k < SLOTS && h.dirSector == ROOT_SECTOR + k / 16 && h.dirIndex == k % 16
    && h.firstCluster == Head(ch) && h.curCluster == Last(ch) && h.pos as int % 512 == |d| % 512
  }

  lemma CursorFields(h: Handle, k: nat, ch: seq<nat>, d: seq<byte>)
    requires Cursor(h, k, ch, d)
    ensures h.firstCluster == Head(ch) && h.curCluster == Last(ch) && h.pos as int % 512 == |d| % 512 && k < SLOTS
    ensures h.dirSector == ROOT_SECTOR + k / 16 && h.dirIndex == k % 16
  {
  }

  class Volume {
    const flash: array<Sector>
    const fatBuf: array<byte>
    var loaded: bool
    var dirty: bool
    /** The cluster chain and the contents of each directory slot, and the handles open for writing. */
    ghost var chains: seq<seq<nat>>
    ghost var data: seq<seq<byte>>
    ghost var open: map<nat, Handle>

    ghost predicate Shape() {
      flash.Length == SECTORS && fatBuf.Length == 512 && (flash as object) != fatBuf
    }

    ghost function Disk(): Flash
      requires Shape()
      reads flash
    {
      flash[..]
    }

    ghost function Fat(): Sector
      requires Shape()
      reads fatBuf
    {
      fatBuf[..]
    }

    /** The cache is loaded; it is newer than both copies on flash only while a file is being written. */
    ghost predicate CacheOk()
      requires Shape()
      reads `loaded, `dirty, `open, flash, fatBuf
    {
      loaded && (!dirty ==> Disk()[1] == Fat() && Disk()[2] == Fat()) && (dirty ==> open != map[])
    }

    /** The table in use: the cached one, or the first copy before it is loaded. */
    ghost function Table(): Sector
      requires Shape()
      reads `loaded, flash, fatBuf
    {
      if loaded then Fat() else Disk()[1]
    }

    ghost predicate Unsaved()
      reads `loaded, `dirty
    {
      loaded && dirty
    }

    /** All writers but one. */
    ghost predicate WritersOk(except: nat)
      reads `open, `chains, `data, open.Values
    {
      |chains| == SLOTS && |data| == SLOTS &&
      forall k | k in open && k != except :: k < SLOTS && Cursor(open[k], k, chains[k], data[k])
    }

    /** Everything but the contents and the writer of one slot. */
    ghost predicate Core(except: nat)
      reads `loaded, `dirty, `open, `chains, `data, flash, fatBuf, open.Values
      ensures Core(except) ==> Shape() && |chains| == SLOTS && |data| == SLOTS
    {
      && Shape() && CacheOk() && TableOk(Fat(), chains) && DirOk(Disk())
      && SlotsOk(Disk(), chains, data, open.Keys, except) && WritersOk(except)
      && (except in open ==> except < SLOTS && Live(Disk(), except))
    }

    ghost predicate Valid()
      reads `loaded, `dirty, `open, `chains, `data, flash, fatBuf, open.Values
    {
      Core(SLOTS)
    }

    /* ---- The table cache ---- */

    method FatLoad()
      requires Shape()
      modifies `loaded, `dirty, fatBuf
      ensures loaded && dirty == old(Unsaved()) && Fat() == old(Table())
    {
      if !loaded {
        var sec := flash[1];
        for i := 0 to 512
          modifies fatBuf
          invariant fatBuf[..i] == sec[..i]
        {
          fatBuf[i] := sec[i];
        }
        assert sec[..512] == sec;
        loaded := true;
        dirty := false;
      }
    }

    /** Writes both copies. */
    method FatFlush()
      requires Shape()
      modifies `dirty, flash
      ensures !dirty
      ensures old(dirty) ==> Disk() == old(Disk())[1 := Fat()][2 := Fat()]
      ensures !old(dirty) ==> Disk() == old(Disk())
    {
      if dirty {
        flash[1] := fatBuf[..];
        flash[2] := fatBuf[..];
        dirty := false;
      }
    }

    method FatGet(cluster: nat) returns (val: nat)
      requires Shape() && cluster <= LAST_CLUSTER
      modifies `loaded, `dirty, fatBuf
      ensures val == GetEntry(old(Table()), cluster)
      ensures loaded && dirty == old(Unsaved()) && Fat() == old(Table())
    {
      var off := cluster * 3 / 2;
      FatLoad();
      val := fatBuf[off] as int + 256 * (fatBuf[off + 1] as int);
      if cluster % 2 == 1 {
        val := val / 16;
      } else {
        val := val % 4096;
      }
    }

    method FatSet(cluster: nat, value: nat)
      requires Shape() && cluster <= LAST_CLUSTER && value < 4096
      modifies `loaded, `dirty, fatBuf
      ensures loaded && dirty && Fat() == SetEntry(old(Table()), cluster, value)
    {
      var off := cluster * 3 / 2;
      FatLoad();
      if cluster % 2 == 1 {
        fatBuf[off] := (fatBuf[off] as int) % 16 + value % 16 * 16;
        fatBuf[off + 1] := value / 16;
      } else {
        fatBuf[off] := value % 256;
        fatBuf[off + 1] := (fatBuf[off + 1] as int) / 16 * 16 + value / 256;
      }
      dirty := true;
    }

    /** The first free cluster, now marked as a last one, or 0 when none is left. */
    method FatAlloc() returns (c: nat)
      requires Shape()
      modifies `loaded, `dirty, fatBuf
      ensures loaded
      ensures c == 0 ==> dirty == old(Unsaved()) && Fat() == old(Table()) && FreeCount(Fat(), LAST_CLUSTER + 1) == 0
      ensures c != 0 ==> IsCluster(c) && GetEntry(old(Table()), c) == 0 && dirty
      ensures c != 0 ==> IsCluster(c) && Fat() == SetEntry(old(Table()), c, EOC)
      ensures c != 0 ==> forall d | 2 <= d < c :: GetEntry(old(Table()), d) != 0
    {
      hide GetEntry, SetEntry;
      FatLoad();
      var i := 2;
      while i < TOTAL_CLUSTERS + 2
        invariant 2 <= i <= TOTAL_CLUSTERS + 2 && loaded && dirty == old(Unsaved()) && Fat() == old(Table())
        invariant forall d | 2 <= d < i :: GetEntry(Fat(), d) != 0
      {
        var v := FatGet(i);
        if v == 0 {
          FatSet(i, EOC);
          return i;
        }
        i := i + 1;
      }
      FreeExists(Fat(), LAST_CLUSTER + 1);
      c := 0;
    }

    /** Gives back every cluster of the chain of slot k, in order. */
    method FatFreeChain(first: nat, ghost k: nat)
      requires Shape() && TableOk(Table(), chains) && k < SLOTS && first == Head(chains[k])
      modifies `loaded, `dirty, fatBuf, `chains
      ensures loaded && TableOk(Fat(), chains) && chains == old(chains)[k := []]
      ensures dirty || (!old(Unsaved()) && Fat() == old(Table()))
    {
      hide TableOk, GetEntry, SetEntry;
      var cluster := first;
      ghost var was := chains;
      FatLoad();
      TableSize(Fat(), chains);
      while cluster >= 2 && cluster < BAD_CLUSTER
        invariant loaded && |chains| == SLOTS && TableOk(Fat(), chains) && chains == was[k := chains[k]]
        invariant if chains[k] == [] then cluster == 0 || cluster == EOC else cluster == chains[k][0]
        invariant dirty || (!old(Unsaved()) && Fat() == old(Table()) && chains == was)
        decreases |chains[k]|
      {
        FreeHead(Fat(), chains, k);
        var next := FatGet(cluster);
        FatSet(cluster, 0);
        chains := chains[k := chains[k][1..]];
        cluster := next;
      }
      HeadIsCluster(Fat(), chains, k);
    }

    /* ---- Writing ---- */

    /** Writes a data sector of slot k. */
    method WriteSector(s: nat, sec: Sector, ghost k: nat, ghost c: nat)
      requires Core(k) && k < SLOTS && c in chains[k] && IsCluster(c) && s == ClusterToSector(c)
      modifies flash
      ensures Core(k) && Disk() == old(Disk())[s := sec]
    {
      hide TableOk, DirOk, Cursor, Live;
      ghost var disk := Disk();
      flash[s] := sec;
      DataKeepsDir(disk, s, sec);
      DataKeepsSlots(disk, s, sec, Fat(), chains, data, open.Keys, k, c);
    }

    /** f writes slot k and has written x so far; the rest of the volume is sound. */
    ghost predicate Writing(f: Handle, k: nat, x: seq<byte>)
      reads `loaded, `dirty, `open, `chains, `data, flash, fatBuf, open.Values, f
      ensures Writing(f, k, x) ==> k < SLOTS && Shape() && |chains| == SLOTS && |data| == SLOTS
    {
      k < SLOTS && Core(k) && k in open && open[k] == f && Cursor(f, k, chains[k], x) && Held(Disk(), chains[k], x)
    }

    /** Bytes that can still be written behind x. */
    ghost function Room(k: nat, x: seq<byte>): int
      requires Shape() && k < |chains|
      reads `chains, fatBuf
    {
      512 * FreeCount(Fat(), LAST_CLUSTER + 1) + 512 * |chains[k]| - |x|
    }

    /** Bytes a write of n bytes to slot k can place. */
    ghost function RoomFor(k: nat, n: nat): int
      reads `chains, `data, fatBuf
    {
      if Shape() && k < |chains| then Room(k, Kept(At(data, k), n)) else 0
    }

    lemma OtherHandles(f: Handle, k: nat, ch: seq<nat>, d: seq<byte>)
      requires Core(k) && k in open && open[k] == f && Cursor(f, k, ch, d)
      ensures forall j | j in open && j != k :: open[j] != f
    {
      hide TableOk, DirOk, SlotsOk;
      forall j | j in open && j != k ensures open[j] != f {
        assert Cursor(open[j], j, chains[j], data[j]);
        SameSlot(j, k);
      }
    }

    /** The first cluster of an empty file. */
    method StartFile(f: Handle, ghost k: nat, ghost x: seq<byte>) returns (ok: bool)
      requires Writing(f, k, x) && f.curCluster < 2
      modifies `loaded, `dirty, `chains, fatBuf, f`firstCluster, f`curCluster
      ensures Writing(f, k, x) && Room(k, x) == old(Room(k, x)) && data == old(data) && open == old(open)
      ensures forall j | 0 <= j < SLOTS && j != k :: chains[j] == old(chains[j])
      ensures if ok then |chains[k]| == 1 else chains[k] == [] && Room(k, x) == 0
      ensures x == []
    {
      hide TableOk, DirOk, SlotsOk, Held, GetEntry, SetEntry, FreeCount, Live, IsChain, Cursor;
      HeadIsCluster(Fat(), chains, k);
      CursorFields(f, k, chains[k], x);
      NothingHeld(Disk(), x);
      OtherHandles(f, k, chains[k], x);
      ghost var fat := Fat();
      var c := FatAlloc();
      if c == 0 {
        return false;
      }
      f.SetFirst(c, k, x);
      Started(fat, Disk(), chains, data, open.Keys, k, c, x);
      assert chains[k] + [c] == [c];
      chains := Extended(chains, k, c);
      ok := true;
    }

    /** Another cluster behind the last one. */
    method NextCluster(f: Handle, ghost k: nat, ghost x: seq<byte>) returns (ok: bool)
      requires Writing(f, k, x) && chains[k] != []
      modifies `loaded, `dirty, `chains, fatBuf, f`curCluster
      ensures Writing(f, k, x) && Room(k, x) == old(Room(k, x)) && data == old(data) && open == old(open)
      ensures forall j | 0 <= j < SLOTS && j != k :: chains[j] == old(chains[j])
      ensures |chains[k]| == |old(chains[k])| + (if ok then 1 else 0)
      ensures !ok ==> Room(k, x) == 512 * |chains[k]| - |x|
    {
      hide TableOk, DirOk, SlotsOk, Held, GetEntry, SetEntry, FreeCount, Live, IsChain, Cursor;
      HeadIsCluster(Fat(), chains, k);
      CursorFields(f, k, chains[k], x);
      OtherHandles(f, k, chains[k], x);
      ghost var fat := Fat();
      var c := FatAlloc();
      if c == 0 {
        return false;
      }
      FatSet(f.curCluster, c);
      ghost var last := f.curCluster;
      f.SetNext(c, k, chains[k], x);
      ExtendChain(fat, chains, k, c, last);
      CountExtended(fat, chains, k, c, last);
      HeldMore(Disk(), chains[k], x, c);
      SlotsExcept(Disk(), chains, Extended(chains, k, c), data, open.Keys, k);
      chains := Extended(chains, k, c);
      ok := true;
    }

    /** Read, patch and write back the sector of the current cluster, and move on. */
    method PutChunk(f: Handle, bytes: seq<byte>, ghost k: nat, ghost x: seq<byte>)
      requires Writing(f, k, x) && |chains[k]| == |x| / 512 + 1 && |x| % 512 + |bytes| <= 512
      modifies flash, f`pos, f`fileSize
      ensures Writing(f, k, x + bytes)
      ensures f.pos == Advance(old(f.pos), |bytes|)
      ensures f.fileSize == if f.pos > old(f.fileSize) then f.pos else old(f.fileSize)
      ensures forall i | 0 <= i < FIRST_DATA_SECTOR && i < flash.Length :: flash[i] == old(flash[i])
    {
      hide TableOk, DirOk, SlotOk, Live, Held, Patch;
      HeadIsCluster(Fat(), chains, k);
      OtherHandles(f, k, chains[k], x);
      var secOff := f.pos % 512;
      var sec := ClusterToSector(f.curCluster);
      var secBuf: Sector := flash[sec];
      LastDiffers(Fat(), chains, k);
      WriteAppends(Disk(), chains[k], x, bytes);
      WriteSector(sec, Patch(secBuf, secOff, bytes), k, f.curCluster);
      MoveOn(f.pos, |bytes|, |x|);
      f.pos := Advance(f.pos, |bytes|);
      if f.pos > f.fileSize {
        f.fileSize := f.pos;
      }
    }

    /** A sound volume, seen from a writer about to write. */
    lemma BeginWrite(f: Handle, k: nat, n: nat)
      requires Valid() && k in open && open[k] == f
      ensures var x := Kept(At(data, k), n);
              && Writing(f, k, x)
              && if n > 0 then chains[k] == [] || |chains[k]| == |x| / 512 + 1 else |chains[k]| == (|x| + 511) / 512
    {
      hide TableOk, DirOk, Held, Live;
      assert Cursor(open[k], k, chains[k], data[k]);
      assert SlotOk(Disk(), chains[k], data[k], k, k in open.Keys);
      HeldPrefix(Disk(), chains[k], data[k], |Kept(data[k], n)|);
      assert data[k][..|data[k]|] == data[k];
      NothingHeldIn(Disk(), chains[k], data[k]);
    }

    /** The writer's contents become those of the slot. */
    ghost method EndWrite(f: Handle, k: nat, x: seq<byte>)
      requires Writing(f, k, x) && |chains[k]| == (|x| + 511) / 512
      modifies `data
      ensures Valid() && data == old(data)[k := x]
    {
      hide TableOk, DirOk, Held, Live;
      data := data[k := x];
      forall j | 0 <= j < SLOTS ensures SlotOk(Disk(), chains[j], data[j], j, j in open.Keys) {
      }
    }

    /** fat12_write: as much of buf as fits, behind what is kept of the contents; these grow by it exactly unless they
        end on a cluster boundary. */
    method Write(f: Handle, buf: seq<byte>, ghost k: nat) returns (r: nat)
      requires Valid() && k in open && open[k] == f
      modifies `loaded, `dirty, `chains, `data, fatBuf, flash, f`firstCluster, f`curCluster, f`pos, f`fileSize
      ensures Valid() && open == old(open)
      ensures r == if |buf| <= old(RoomFor(k, |buf|)) then |buf| else old(RoomFor(k, |buf|))
      ensures r <= |buf| && data == Updated(old(data), k, Kept(At(old(data), k), |buf|) + buf[..r])
      ensures At(data, k) == At(old(data), k) + buf[..r] <==> Appends(At(old(data), k), buf)
      ensures f.pos == Advance(old(f.pos), r)
      ensures Grows(old(f.pos), old(f.fileSize), r, f.pos, f.fileSize)
      ensures forall i | 0 <= i < FIRST_DATA_SECTOR && i < flash.Length :: flash[i] == old(flash[i])
    {
      hide TableOk, DirOk, SlotsOk, Core, Writing, Valid, Room, Kept, Advance, Grows;
      ghost var x := Kept(At(data, k), |buf|);
      ghost var kept := x;
      BeginWrite(f, k, |buf|);
      RoomIsNat(f, k, x);
      ghost var room := Room(k, x);
      var done: nat, stop := 0, false;
      GrowsNone(f.pos, f.fileSize);
      assert x == kept + buf[..0];
      while done < |buf| && !stop
        invariant done <= |buf| && Writing(f, k, x) && x == kept + buf[..done]
        invariant data == old(data) && open == old(open) && Room(k, x) + done == room
        invariant if done < |buf| && !stop then chains[k] == [] || |chains[k]| == |x| / 512 + 1
                  else |chains[k]| == (|x| + 511) / 512
        invariant stop ==> Room(k, x) == 0 && done <= |buf|
        invariant f.pos == Advance(old(f.pos), done)
        invariant Grows(old(f.pos), old(f.fileSize), done, f.pos, f.fileSize)
        invariant forall i | 0 <= i < FIRST_DATA_SECTOR && i < flash.Length :: flash[i] == old(flash[i])
        decreases |buf| - done, !stop
      {
        var n: nat;
        ghost var x', pos, size := x, f.pos, f.fileSize;
        n, stop, x' := WriteChunk(f, buf[done..], k, x);
        SliceOn(kept, buf, done, n);
        x := x';
        AdvanceTwice(old(f.pos), done, n);
        GrowsOn(old(f.pos), old(f.fileSize), done, n, pos, size, f.pos, f.fileSize);
        done := done + n;
      }
      r := done;
      RoomIsNat(f, k, x);
      EndWrite(f, k, x);
      AppendsWhen(At(old(data), k), buf, r);
    }

    lemma RoomIsNat(f: Handle, k: nat, x: seq<byte>)
      requires Writing(f, k, x)
      ensures Room(k, x) >= 0
    {
    }

    /** One round of the loop of fat12_write. */
    method WriteChunk(f: Handle, buf: seq<byte>, ghost k: nat, ghost x: seq<byte>)
      returns (n: nat, full: bool, ghost x': seq<byte>)
      requires Writing(f, k, x) && buf != [] && (chains[k] == [] || |chains[k]| == |x| / 512 + 1)
      modifies `loaded, `dirty, `chains, fatBuf, flash, f`firstCluster, f`curCluster, f`pos, f`fileSize
      ensures n <= |buf| && x' == x + buf[..n] && Writing(f, k, x') && Room(k, x') + n == old(Room(k, x))
      ensures data == old(data) && open == old(open) && (full || n > 0)
      ensures if n < |buf| && !full then |chains[k]| == |x'| / 512 + 1 else |chains[k]| == (|x'| + 511) / 512
      ensures full ==> Room(k, x') == 0
      ensures f.pos == Advance(old(f.pos), n)
      ensures f.fileSize == if n > 0 && f.pos > old(f.fileSize) then f.pos else old(f.fileSize)
      ensures forall i | 0 <= i < FIRST_DATA_SECTOR && i < flash.Length :: flash[i] == old(flash[i])
    {
      hide TableOk, DirOk, SlotsOk, Core, Held, FreeCount;
      CursorShape(f, k, x);
      x' := x;
      n := 512 - f.pos % 512;
      if n > |buf| {
        n := |buf|;
      }
      if f.curCluster < 2 {
        var ok := StartFile(f, k, x);
        if !ok {
          n, full := 0, true;
          return;
        }
      }
      PutChunk(f, buf[..n], k, x);
      x' := x + buf[..n];
      full := false;
      if f.pos % 512 == 0 && |buf| - n > 0 {
        var ok := NextCluster(f, k, x');
        full := !ok;
      }
    }

    lemma CursorShape(f: Handle, k: nat, x: seq<byte>)
      requires Writing(f, k, x)
      ensures f.curCluster < 2 <==> chains[k] == []
      ensures f.pos as int % 512 == |x| % 512
      ensures chains[k] == [] ==> x == []
    {
      hide DirOk, SlotsOk;
      HeadIsCluster(Fat(), chains, k);
      if chains[k] == [] {
        NothingHeld(Disk(), x);
      }
    }

    /* ---- Directory operations ---- */

    /** dir_find: the slot as a sector and an index in it, with its entry. */
    method DirFind(name: Name) returns (found: bool, sec: nat, idx: nat, ent: Entry)
      requires Shape()
      ensures var k := Find(Disk(), name, 0);
              if k == -1 then !found
              else found && sec == ROOT_SECTOR + k / 16 && idx == k % 16 && ent == Slot(Disk(), k)
    {
      hide Find, Slot;
      ent := NewEntry(name);
      sec, idx := 0, 0;
      for s := 0 to 4
        invariant Find(Disk(), name, 0) == Find(Disk(), name, 16 * s)
      {
        var buf: Sector := flash[ROOT_SECTOR + s];
        var stop, hit, j, e := ScanSector(buf, name, Disk(), s);
        if stop {
          return hit, ROOT_SECTOR + s, j, e;
        }
      }
      NoneBeyond(Disk(), name);
      found := false;
    }

    /** The first unused slot, or -1. */
    method FindUnused() returns (k: int)
      requires Shape()
      ensures k == FirstUnused(Disk(), 0)
    {
      hide EntryIn, Slot;
      for s := 0 to 4
        invariant FirstUnused(Disk(), 0) == FirstUnused(Disk(), 16 * s)
      {
        var buf: Sector := flash[ROOT_SECTOR + s];
        for j := 0 to 16
          invariant FirstUnused(Disk(), 0) == FirstUnused(Disk(), 16 * s + j)
        {
          SlotAt(Disk(), s, j);
          if Unused(EntryIn(buf, j)) {
            return 16 * s + j;
          }
        }
      }
      k := -1;
    }

    /** Reads, changes and writes back one entry of the directory. */
    method WriteEntry(k: nat, e: Entry)
      requires Shape() && k < SLOTS
      modifies flash
      ensures Disk() == PutSlot(old(Disk()), k, e)
    {
      hide EntryIn, PutIn;
      var buf: Sector := flash[ROOT_SECTOR + k / 16];
      flash[ROOT_SECTOR + k / 16] := PutIn(buf, k % 16, e);
    }

    /** fat12_create: a fresh entry, and a handle to write it; under a name that begins with the deleted mark the slot
        stays unused, and the handle has no file. */
    method Create(name: Name, f: Handle) returns (ok: bool)
      requires Valid() && f !in open.Values && name[0] != 0
      modifies flash, `open, f
      ensures Valid() && Shape() && data == old(data)
      ensures ok <==> Find(old(Disk()), name, 0) == -1 && FirstUnused(old(Disk()), 0) != -1
      ensures !ok ==> Disk() == old(Disk()) && open == old(open)
      ensures ok ==> var k := FirstUnused(old(Disk()), 0);
                Disk() == PutSlot(old(Disk()), k, NewEntry(name)) && k !in old(open) &&
                open == (if name[0] == DELETED then old(open) else old(open)[k := f]) &&
                At(data, k) == [] && f.pos == 0 && f.fileSize == 0 && f.writable
    {
      hide TableOk, DirOk, SlotsOk, WritersOk, Slot, PutSlot, NewEntry, Find, FirstUnused;
      var found, sec, idx, ent := DirFind(name);
      if found {
        return false;
      }
      var k := FindUnused();
      if k == -1 {
        return false;
      }
      NewEntryNamed(name);
      NewEntryStart(name);
      CreateKeepsDir(Disk(), name, NewEntry(name));
      Register(k, NewEntry(name), f);
      ok := true;
    }

    /** Writes a new entry and makes f its writer, if the entry is live. */
    method Register(k: nat, e: Entry, f: Handle)
      requires Valid() && f !in open.Values
      requires k < SLOTS && !Live(Disk(), k) && DirOk(PutSlot(Disk(), k, e))
      modifies flash, `open, f
      ensures Valid() && Disk() == PutSlot(old(Disk()), k, e) && data == old(data)
      ensures k !in old(open) && open == (if Unused(e) then old(open) else old(open)[k := f])
      ensures At(data, k) == [] && f.pos == 0 && f.fileSize == 0 && f.writable
    {
      hide TableOk, DirOk, SlotsOk, Slot, PutSlot, Cursor, Live;
      ghost var disk, writing := Disk(), open.Keys;
      CreateKeepsSlots(disk, chains, data, open.Keys, k, e);
      PutKeepsCopies(disk, k, e);
      WriteEntry(k, e);
      f.Begin(k);
      if !Unused(e) {
        open := open[k := f];
        assert open.Keys == writing + {k};
      }
    }

    /** Brings the copies up to date. */
    method Sync(ghost except: nat)
      requires Shape() && loaded && (!dirty ==> Disk()[1] == Fat() && Disk()[2] == Fat())
      requires DirOk(Disk()) && SlotsOk(Disk(), chains, data, open.Keys, except)
      modifies `dirty, flash
      ensures !dirty && Disk()[1] == Fat() && Disk()[2] == Fat()
      ensures DirOk(Disk()) && SlotsOk(Disk(), chains, data, open.Keys, except)
      ensures forall j | 0 <= j < SLOTS :: Slot(Disk(), j) == Slot(old(Disk()), j)
      ensures forall j | 0 <= j < SLOTS :: Live(Disk(), j) == Live(old(Disk()), j)
    {
      hide DirOk, SlotsOk, Slot;
      ghost var disk, fat := Disk(), Fat();
      CopyKeepsAll(disk, 1, fat, chains, data, open.Keys, except);
      CopyKeepsAll(disk[1 := fat], 2, fat, chains, data, open.Keys, except);
      FatFlush();
    }

    /** fat12_close: the table goes to flash, then the extent into the entry. */
    method Close(f: Handle, ghost k: nat)
      requires Valid() && (f.writable ==> k in open && open[k] == f)
      modifies `dirty, flash, `open, f`writable
      ensures Valid() && Shape() && data == old(data) && !f.writable
      ensures !old(f.writable) ==> Disk() == old(Disk()) && open == old(open)
      ensures old(f.writable) ==> k < SLOTS && open == old(open) - {k} && !dirty
      ensures old(f.writable) ==> Live(Disk(), k) && SizeOf(Slot(Disk(), k)) == f.fileSize
      ensures old(f.writable) ==> NameOf(Slot(Disk(), k)) == NameOf(Slot(old(Disk()), k))
      ensures old(f.writable) ==> forall j | 0 <= j < SLOTS && j != k :: Slot(Disk(), j) == Slot(old(Disk()), j)
    {
      hide TableOk, DirOk, SlotsOk, Slot, PutSlot, Live, NameOf, Unused, SizeOf, ClusterOf, Cursor, CacheOk;
      if f.writable {
        HeadIsCluster(Fat(), chains, k);
        CursorFields(f, k, chains[k], data[k]);
        CacheFacts();
        Sync(SLOTS);
        ghost var disk, writing := Disk(), open.Keys;
        WriterIsLive(disk, chains, data, writing, k);
        ghost var e := WriteExtent(f, k);
        CloseKeepsSlots(disk, chains, data, writing, k, e);
        PutKeepsCopies(disk, k, e);
        Retire(f, k);
        assert open.Keys == writing - {k};
        CleanCache();
      }
    }

    lemma CacheFacts()
      requires Shape() && CacheOk()
      ensures loaded && (!dirty ==> Disk()[1] == Fat() && Disk()[2] == Fat())
    {
    }

    lemma CleanCache()
      requires Shape() && loaded && !dirty && Disk()[1] == Fat() && Disk()[2] == Fat()
      ensures CacheOk()
    {
    }

    /** Ends the writer of slot k; the others stay. */
    method Retire(f: Handle, ghost k: nat)
      requires WritersOk(SLOTS) && SLOTS !in open && k in open && open[k] == f
      modifies `open, f`writable
      ensures !f.writable && open == old(open) - {k} && WritersOk(SLOTS)
    {
      assert Cursor(f, k, chains[k], data[k]);
      forall j | j in open && j != k ensures open[j] != f {
        assert Cursor(open[j], j, chains[j], data[j]);
        SameSlot(j, k);
      }
      f.writable := false;
      open := open - {k};
    }

    /** First cluster and size into the entry of the handle. */
    method WriteExtent(f: Handle, ghost k: nat) returns (ghost e: Entry)
      requires Shape() && k < SLOTS && f.dirSector == ROOT_SECTOR + k / 16 && f.dirIndex == k % 16
      requires Live(Disk(), k) && DirOk(Disk()) && f.firstCluster <= LAST_CLUSTER
      modifies flash
      ensures Disk() == PutSlot(old(Disk()), k, e) && DirOk(Disk())
      ensures !Unused(e) && ClusterOf(e) == f.firstCluster && SizeOf(e) == f.fileSize
      ensures NameOf(e) == NameOf(Slot(old(Disk()), k))
      ensures forall j | 0 <= j < SLOTS :: Slot(Disk(), j) == if j == k then e else Slot(old(Disk()), j)
    {
      hide DirOk, Slot, PutSlot, EntryIn, PutIn, WithExtent, Live, NameOf;
      ghost var disk := Disk();
      var buf: Sector := flash[f.dirSector];
      var entry := WithExtent(EntryIn(buf, f.dirIndex), f.firstCluster, f.fileSize);
      EntryWithExtent(disk, k, f.firstCluster, f.fileSize);
      flash[f.dirSector] := PutIn(buf, f.dirIndex, entry);
      PutIsUpdate(disk, k, entry);
      e := entry;
    }

    /** fat12_delete: the chain is freed and the entry marked, for a file nobody writes. */
    method Delete(name: Name) returns (ok: bool)
      requires Valid() && Shape() && (Find(Disk(), name, 0) != -1 ==> Find(Disk(), name, 0) as nat !in open)
      modifies `loaded, `dirty, fatBuf, flash, `chains, `data
      ensures Valid() && open == old(open)
      ensures ok <==> Find(old(Disk()), name, 0) != -1
      ensures !ok ==> Disk() == old(Disk()) && data == old(data)
      ensures ok ==> var k := Find(old(Disk()), name, 0);
                !Live(Disk(), k) && data == Updated(old(data), k, []) &&
                forall j | 0 <= j < SLOTS && j != k :: Slot(Disk(), j) == Slot(old(Disk()), j)
    {
      hide TableOk, DirOk, SlotsOk, CacheOk, Cursor, Slot, PutSlot, Live, Find, ClusterOf;
      var found, sec, idx, ent := DirFind(name);
      if !found {
        return false;
      }
      CacheFacts();
      ghost var k := Find(Disk(), name, 0);
      ghost var writing := open.Keys;
      FindLive(Disk(), name, 0);
      ClosedHead(Disk(), chains, data, open.Keys, k);
      HeadIsCluster(Fat(), chains, k);
      FatLoad();
      SlotsLoosen(Disk(), chains, data, open.Keys, k);
      ghost var oldChains := chains;
      FatFreeChain(ClusterOf(ent), k);
      SlotsExcept(Disk(), oldChains, chains, data, open.Keys, k);
      Sync(k);
      ghost var disk := Disk();
      DeletedEntry(disk, k);
      DeleteKeepsSlots(disk, chains, data, writing, k);
      PutKeepsCopies(disk, k, Deleted(Slot(disk, k)));
      MarkDeleted(sec, idx, k);
      data := data[k := []];
      CleanCache();
      ok := true;
    }

    /** The deleted mark into the entry at a sector and index. */
    method MarkDeleted(sec: nat, idx: nat, ghost k: nat)
      requires Shape() && k < SLOTS && sec == ROOT_SECTOR + k / 16 && idx == k % 16
      modifies flash
      ensures Disk() == PutSlot(old(Disk()), k, Deleted(Slot(old(Disk()), k)))
    {
      hide EntryIn, PutIn;
      ghost var disk := Disk();
      var buf: Sector := flash[sec];
      flash[sec] := PutIn(buf, idx, Deleted(EntryIn(buf, idx)));
      PutIsUpdate(disk, k, Deleted(EntryIn(buf, idx)));
    }

    /* ---- Reading ---- */

    /** fat12_open: a read handle at the start of a file. */
    method Open(name: Name, f: Handle) returns (ok: bool)
      requires Valid() && Shape() && f !in open.Values
      modifies f
      ensures Valid()
      ensures ok <==> Find(Disk(), name, 0) != -1
      ensures ok ==> var k := Find(Disk(), name, 0);
                && !f.writable && f.fileSize == SizeOf(Slot(Disk(), k)) && f.pos == 0
                && (k as nat !in open && f.fileSize == |At(data, k)| ==> Reader(f, k))
    {
      hide TableOk, DirOk, SlotsOk, CacheOk, Cursor, Slot, Live, Find, ClusterOf, SizeOf, Fat, Disk;
      var found, sec, idx, ent := DirFind(name);
      if !found {
        return false;
      }
      f.firstCluster, f.curCluster, f.fileSize, f.pos := ClusterOf(ent), ClusterOf(ent), SizeOf(ent), 0;
      f.dirSector, f.dirIndex, f.writable := sec, idx, false;
      FindLive(Disk(), name, 0);
      if Find(Disk(), name, 0) as nat !in open {
        ClosedFile(Find(Disk(), name, 0));
      }
      ok := true;
    }

    /** The entry of a closed file points to its chain. */
    lemma ClosedFile(k: nat)
      requires Valid() && Shape() && k < SLOTS && Live(Disk(), k) && k !in open
      ensures |chains| == SLOTS && |data| == SLOTS && |chains[k]| == (|data[k]| + 511) / 512
      ensures ClusterOf(Slot(Disk(), k)) == Head(chains[k])
    {
      hide TableOk, DirOk, CacheOk, WritersOk, Slot, Live, ClusterOf;
      ClosedHead(Disk(), chains, data, open.Keys, k);
      ClosedStored(Disk(), chains, data, open.Keys, k);
    }

    /** f reads the closed file of slot k and stands at f.pos. */
    ghost predicate Reader(f: Handle, k: nat)
      reads `chains, `data, `open, f
    {
      && k < SLOTS && |chains| == SLOTS && |data| == SLOTS && k !in open
      && f.fileSize == |data[k]| && f.pos <= f.fileSize
      && |chains[k]| == (|data[k]| + 511) / 512
      && (f.pos < f.fileSize ==> f.curCluster == chains[k][f.pos as int / 512])
    }

    /** fat12_read: the next len bytes of the contents, fewer at their end. */
    method Read(f: Handle, len: nat, ghost k: nat) returns (out: seq<byte>)
      requires Valid() && Reader(f, k) && f !in open.Values
      modifies `loaded, `dirty, fatBuf, f`pos, f`curCluster
      ensures Valid() && Reader(f, k) && k < SLOTS
      ensures f.pos as int == old(f.pos) as int + |out| && |out| == Min(len, old(f.fileSize - f.pos))
      ensures |data[k]| >= f.pos as int && out == data[k][old(f.pos)..f.pos]
    {
      hide TableOk, DirOk, SlotsOk, CacheOk, WritersOk;
      out := [];
      var end := false;
      var left: nat := len;
      ghost var d := data[k];
      while left > 0 && f.pos < f.fileSize && !end
        invariant end ==> f.pos == f.fileSize
        invariant Valid() && Reader(f, k) && left + |out| == len && f.fileSize == old(f.fileSize)
        invariant f.pos as int == old(f.pos) as int + |out| && data[k] == d && out == d[old(f.pos)..f.pos]
        invariant old(f.pos) <= f.pos <= f.fileSize
        decreases left
      {
        var secOff := f.pos % 512;
        var avail := 512 - secOff;
        if avail > f.fileSize - f.pos {
          avail := f.fileSize - f.pos;
        }
        if avail > left {
          avail := left;
        }
        ReaderOnCluster(f, k);
        if f.curCluster < 2 {
          break;
        }
        ghost var here := f.pos;
        var bytes;
        bytes, end := ReadChunk(f, avail, k);
        SliceGrows(d, old(f.pos), here, here + avail);
        out := out + bytes;
        left := left - avail;
      }
    }

    lemma ReaderOnCluster(f: Handle, k: nat)
      requires Valid() && Reader(f, k) && f.pos < f.fileSize
      ensures IsCluster(f.curCluster)
    {
      hide DirOk, SlotsOk, CacheOk, WritersOk;
      LinkAt(Fat(), chains, k, f.pos as int / 512);
    }

    /** Bytes from one sector; at its end the handle follows the chain, or has reached its end. */
    method ReadChunk(f: Handle, n: nat, ghost k: nat) returns (bytes: seq<byte>, end: bool)
      requires Valid() && Reader(f, k) && f !in open.Values
      requires 0 < n && f.pos as int + n <= f.fileSize as int && f.pos as int % 512 + n <= 512
      modifies `loaded, `dirty, fatBuf, f`pos, f`curCluster
      ensures Valid() && Reader(f, k) && f.pos as int == old(f.pos) as int + n && data == old(data)
      ensures k < SLOTS && |data| == SLOTS && f.pos as int <= |data[k]| && bytes == data[k][old(f.pos)..f.pos]
      ensures end ==> f.pos == f.fileSize
    {
      hide TableOk, DirOk, SlotsOk, Held, Cursor;
      ghost var i := f.pos as int / 512;
      ClosedStored(Disk(), chains, data, open.Keys, k);
      ReadsPiece(Disk(), chains[k], data[k], f.pos, n);
      var sec: Sector := flash[ClusterToSector(f.curCluster)];
      var secOff := f.pos % 512;
      bytes := sec[secOff..secOff + n];
      f.pos := f.pos as int + n;
      end := false;
      if f.pos % 512 == 0 {
        LinkAt(Fat(), chains, k, i);
        var next := FatGet(f.curCluster);
        if next >= EOC || next < 2 {
          return bytes, true;
        }
        f.curCluster := next;
      }
    }

    /* ---- Formatting and mounting ---- */

    /** fat12_format: an empty volume. */
    method Format()
      requires Shape()
      modifies this, flash, fatBuf
      ensures Valid() && open == map[] && Mountable(Disk()[0])
      ensures forall k | 0 <= k < SLOTS :: !Live(Disk(), k) && At(data, k) == []
      ensures FreeCount(Fat(), LAST_CLUSTER + 1) == TOTAL_CLUSTERS
    {
      hide TableOk, Slot, Stored, EmptyFat, BootSector, FreeCount, NamesOk;
      flash[0] := BootSector();
      flash[1] := EmptyFat();
      flash[2] := EmptyFat();
      for i := 0 to 4
        invariant flash[0] == BootSector() && flash[1] == EmptyFat() && flash[2] == EmptyFat()
        invariant forall j | ROOT_SECTOR <= j < ROOT_SECTOR + i :: flash[j] == BLANK
      {
        flash[ROOT_SECTOR + i] := BLANK;
      }
      loaded := false;
      dirty := false;
      FatLoad();
      open := map[];
      chains := seq(SLOTS, _ => []);
      data := seq(SLOTS, _ => []);
      assert Disk()[3] == BLANK && Disk()[4] == BLANK && Disk()[5] == BLANK && Disk()[6] == BLANK;
      BlankSlots(Disk());
      BootMounts();
      FreshTable(chains);
      EmptyStored(Disk());
      FreshNames(Disk());
    }

    /** fat12_init on any flash, and the load of the table that comes with its first use. */
    method Mount() returns (ok: bool)
      requires Shape()
      modifies `loaded, `dirty, fatBuf
      ensures ok <==> Mountable(Disk()[0])
      ensures loaded && !dirty && Fat() == Disk()[1]
      ensures old(Valid() && open == map[]) ==> Valid() && Fat() == old(Fat())
    {
      hide TableOk, DirOk, SlotsOk;
      loaded := false;
      dirty := false;
      FatLoad();
      ok := Mountable(flash[0]);
    }

    /** The table on flash, walked from the entry of a closed file, visits its chain: no loop, no sharing. */
    lemma Sound(k: nat)
      requires Valid() && k < SLOTS && Live(Disk(), k) && k !in open
      ensures |chains| == SLOTS && Follow(Fat(), ClusterOf(Slot(Disk(), k)), TOTAL_CLUSTERS) == chains[k]
      ensures forall i, j | 0 <= i < j < |chains[k]| :: chains[k][i] != chains[k][j]
      ensures forall m, c | 0 <= m < SLOTS && m != k && c in chains[k] :: c !in chains[m]
      ensures FreeCount(Fat(), LAST_CLUSTER + 1) + SumLen(chains) == TOTAL_CLUSTERS
    {
      hide DirOk, CacheOk, WritersOk, Slot, Live, GetEntry, FreeCount, SumLen, ClusterOf, IsChain;
      ClosedHead(Disk(), chains, data, open.Keys, k);
      LengthInSum(chains, k);
      assert IsChain(Fat(), chains[k]);
      FollowIsChain(Fat(), chains[k], TOTAL_CLUSTERS);
      forall i, j | 0 <= i < j < |chains[k]| ensures chains[k][i] != chains[k][j] {
        OnceIn(chains, k, i, j);
      }
      forall m, c | 0 <= m < SLOTS && m != k && c in chains[k] ensures c !in chains[m] {
        var i :| 0 <= i < |chains[k]| && chains[k][i] == c;
        OnlyIn(chains, k, i, m);
      }
    }

    lemma OpenIsWritable(k: nat)
      requires Valid() && k in open
      ensures open[k].writable
    {
      hide TableOk, DirOk, SlotsOk, CacheOk;
    }

    /* ---- A file from creation to reading ---- */

    /** The slot holds a closed file of this name with these bytes, its entry says so. */
    ghost predicate HasFile(k: nat, name: Name, bytes: seq<byte>)
      reads `chains, `data, `open, flash
    {
      && Shape() && k < SLOTS && k !in open && Live(Disk(), k) && NameOf(Slot(Disk(), k)) == name
      && SizeOf(Slot(Disk(), k)) as int == |bytes| && At(data, k) == bytes
    }

    /** Create, one write, close. */
    method Save(name: Name, bytes: seq<byte>, w: Handle) returns (saved: bool)
      requires Valid() && Shape() && w !in open.Values && !Unused(NewEntry(name)) && |bytes| < 0x1_0000_0000
      modifies this, fatBuf, flash, w
      ensures Valid() && open == old(open)
      ensures saved <==> Find(old(Disk()), name, 0) == -1 && FirstUnused(old(Disk()), 0) != -1 &&
                         |bytes| <= 512 * FreeCount(old(Fat()), LAST_CLUSTER + 1)
      ensures saved ==> HasFile(FirstUnused(old(Disk()), 0), name, bytes)
      ensures forall j | 0 <= j < SLOTS && j != FirstUnused(old(Disk()), 0) ::
                At(data, j) == old(At(data, j)) && Slot(Disk(), j) == old(Slot(Disk(), j))
    {
      hide TableOk, DirOk, SlotsOk, WritersOk, CacheOk, Core, Slot, PutSlot, Live, Find, FirstUnused, NewEntry;
      hide FreeCount, Unused, NameOf, SizeOf;
      ghost var disk, k := Disk(), FirstUnused(Disk(), 0);
      NewEntryStart(name);
      saved := Create(name, w);
      if !saved {
        return;
      }
      PutChangesOne(disk, k, NewEntry(name));
      NoClusters(k);
      ghost var disk1 := Disk();
      var n := Write(w, bytes, k);
      SameDirectory(disk1, Disk());
      ghost var disk2 := Disk();
      Close(w, k);
      AddedThenRemoved(old(open), k, w);
      saved := n == |bytes|;
      NewEntryNamed(name);
      assert bytes[..|bytes|] == bytes && [] + bytes == bytes;
    }

    lemma ChainLength(k: nat)
      requires Valid() && k < SLOTS
      ensures |chains| == SLOTS && |chains[k]| == (|At(data, k)| + 511) / 512
    {
      hide TableOk, DirOk, WritersOk, CacheOk;
      ClosedStored(Disk(), chains, data, open.Keys, k);
    }

    /** Two writes to a new file, the first of one whole cluster: the second takes its place. */
    method WriteTwice(name: Name, first: seq<byte>, second: seq<byte>, w: Handle) returns (ok: bool, ghost k: nat)
      requires Valid() && Shape() && w !in open.Values && !Unused(NewEntry(name))
      requires |first| == 512 && 0 < |second| <= 512
      modifies this, fatBuf, flash, w
      ensures Valid()
      ensures ok <==> Find(old(Disk()), name, 0) == -1 && FirstUnused(old(Disk()), 0) != -1 &&
                      FreeCount(old(Fat()), LAST_CLUSTER + 1) > 0
      ensures ok ==> k in open && At(data, k) == second
    {
      hide TableOk, DirOk, SlotsOk, WritersOk, CacheOk, Core, Slot, PutSlot, Live, Find, FirstUnused, NewEntry;
      hide FreeCount, Unused, NameOf, Kept, Appends, Advance, Grows;
      k := 0;
      NewEntryStart(name);
      ok := Create(name, w);
      if !ok {
        return;
      }
      k := FirstUnused(old(Disk()), 0);
      NoClusters(k);
      var n := Write(w, first, k);
      if n < |first| {
        return false, k;
      }
      assert [] + first[..n] == first;
      KeptNone(first, |second|);
      ChainLength(k);
      n := Write(w, second, k);
      assert [] + second[..n] == second;
    }

    lemma NoClusters(k: nat)
      requires Valid() && k < SLOTS && At(data, k) == []
      ensures |chains| == SLOTS && chains[k] == [] && forall n :: Kept(At(data, k), n) == []
    {
      hide TableOk, DirOk, WritersOk, CacheOk;
      ClosedStored(Disk(), chains, data, open.Keys, k);
    }

    /** Reads a file in pieces of the given sizes. */
    method Load(name: Name, r: Handle, lens: seq<nat>, ghost k: nat, ghost bytes: seq<byte>) returns (out: seq<byte>)
      requires Valid() && Shape() && r !in open.Values && HasFile(k, name, bytes)
      modifies `loaded, `dirty, fatBuf, r
      ensures Valid() && out == bytes[..Min(Total(lens), |bytes|)]
    {
      hide TableOk, DirOk, SlotsOk, WritersOk, CacheOk, Slot, Live, Find, NameOf, SizeOf;
      FindMeans(Disk(), name, 0, k);
      var ok := Open(name, r);
      out := [];
      for i := 0 to |lens|
        invariant Valid() && Reader(r, k) && data == old(data) && r !in open.Values
        invariant r.pos as int == Min(Total(lens[..i]), |bytes|) && out == bytes[..r.pos]
      {
        ghost var was := r.pos;
        var piece := Read(r, lens[i], k);
        out := out + piece;
        assert lens[..i + 1][..i] == lens[..i];
        assert bytes[..was] + bytes[was..r.pos] == bytes[..r.pos];
      }
      assert lens[..|lens|] == lens;
    }

    /** Creates a file with one write, closes it, opens it and reads it in pieces of the given sizes. */
    method SaveThenLoad(name: Name, bytes: seq<byte>, w: Handle, r: Handle, lens: seq<nat>)
      returns (saved: bool, out: seq<byte>)
      requires Valid() && Shape() && w !in open.Values && r !in open.Values && w != r
      requires !Unused(NewEntry(name)) && |bytes| < 0x1_0000_0000
      modifies this, fatBuf, flash, w, r
      ensures Valid() && open == old(open)
      ensures saved <==> Find(old(Disk()), name, 0) == -1 && FirstUnused(old(Disk()), 0) != -1 &&
                         |bytes| <= 512 * FreeCount(old(Fat()), LAST_CLUSTER + 1)
      ensures saved ==> out == bytes[..Min(Total(lens), |bytes|)]
      ensures forall j | 0 <= j < SLOTS && j != FirstUnused(old(Disk()), 0) ::
                At(data, j) == old(At(data, j)) && Slot(Disk(), j) == old(Slot(Disk(), j))
    {
      hide Valid, Slot, Find, FirstUnused, NewEntry, FreeCount, HasFile, Unused;
      out := [];
      ghost var k := FirstUnused(Disk(), 0);
      saved := Save(name, bytes, w);
      if saved {
        out := Load(name, r, lens, k, bytes);
      }
    }
  }

  lemma AddedThenRemoved(m: map<nat, Handle>, k: nat, h: Handle)
    requires k !in m
    ensures m[k := h] - {k} == m
  {
  }

  lemma SameDirectory(disk: Flash, disk': Flash)
    requires forall i | 0 <= i < FIRST_DATA_SECTOR :: disk'[i] == disk[i]
    ensures forall k | 0 <= k < SLOTS :: Slot(disk', k) == Slot(disk, k) && Live(disk', k) == Live(disk, k)
  {
    hide EntryIn;
  }

  /** What a program does with the volume between formatting and power-off. */
  datatype Command = CreateFile(name: Name) | WriteFile(k: nat, bytes: seq<byte>) | CloseFile(k: nat)
    | DeleteFile(name: Name) | FormatVolume

  /** Any run on a fresh volume leaves it sound; a command that its caller must not give is passed over. */
  method Run(v: Volume, cmds: seq<Command>)
    requires v.Shape()
    modifies v, v.flash, v.fatBuf
    ensures v.Valid()
  {
    hide Volume.Valid, Find, FirstUnused, NewEntry, Unused, Slot, Live;
    v.Format();
    var handles: map<nat, Handle> := map[];
    for i := 0 to |cmds|
      invariant v.Valid() && handles == v.open && forall k | k in handles :: fresh(handles[k])
    {
      match cmds[i]
      case CreateFile(name) =>
        if name[0] != 0 {
          var f := new Handle();
          var unused := v.FindUnused();
          var ok := v.Create(name, f);
          if ok && name[0] != DELETED {
            handles := handles[unused := f];
          }
        }
      case WriteFile(k, bytes) =>
        if k in handles {
          var n := v.Write(handles[k], bytes, k);
        }
      case CloseFile(k) =>
        if k in handles {
          v.OpenIsWritable(k);
          v.Close(handles[k], k);
          handles := handles - {k};
        }
      case FormatVolume =>
        v.Format();
        handles := map[];
      case DeleteFile(name) =>
        var found, sec, idx, ent := v.DirFind(name);
        if found && SlotIndex(sec, idx) !in handles {
          SlotIndexIs(Find(v.Disk(), name, 0));
          var ok := v.Delete(name);
        }
    }
  }

  function SlotIndex(sec: nat, idx: nat): int {
    16 * (sec - ROOT_SECTOR) + idx
  }

  lemma SlotIndexIs(k: nat)
    ensures SlotIndex(ROOT_SECTOR + k / 16, k % 16) == k
  {
  }

  function Total(lens: seq<nat>): nat {
    if lens == [] then 0 else Total(lens[..|lens| - 1]) + lens[|lens| - 1]
  }

  /** The inner loop of dir_find: whether the search ends in sector s, and where. */
  method ScanSector(buf: Sector, name: Name, ghost disk: Flash, ghost s: nat)
    returns (stop: bool, hit: bool, j: nat, e: Entry)
    requires s < 4 && buf == disk[ROOT_SECTOR + s]
    ensures var k := Find(disk, name, 16 * s);
            if !stop then k == Find(disk, name, 16 * s + 16)
            else if hit then j < 16 && k == 16 * s + j && e == Slot(disk, 16 * s + j)
            else k == -1
  {
    hide Find, Slot, EntryIn, NameOf;
    e := NewEntry(name);
    j := 0;
    while j < 16
      invariant j <= 16 && Find(disk, name, 16 * s) == Find(disk, name, 16 * s + j)
    {
      e := EntryIn(buf, j);
      SlotAt(disk, s, j);
      FindAt(disk, name, 16 * s + j);
      if e[0] == 0 {
        return true, false, j, e;
      }
      if e[0] != DELETED && NameOf(e) == name {
        return true, true, j, e;
      }
      j := j + 1;
    }
    return false, false, j, e;
  }

  lemma NoneBeyond(disk: Flash, name: Name)
    ensures Find(disk, name, SLOTS) == -1
  {
  }

  lemma SliceGrows(d: seq<byte>, a: nat, b: nat, c: nat)
    requires a <= b <= c <= |d|
    ensures d[a..b] + d[b..c] == d[a..c]
  {
  }

  /** There is nothing to write, or the contents are empty or end inside a cluster. */
  predicate Appends(d: seq<byte>, buf: seq<byte>) {
    buf == [] || d == [] || |d| % 512 != 0
  }

  lemma KeptNone(d: seq<byte>, n: nat)
    requires |d| == 512 && n > 0
    ensures Kept(d, n) == []
  {
  }

  lemma AppendsWhen(d: seq<byte>, buf: seq<byte>, r: nat)
    requires r <= |buf|
    ensures Kept(d, |buf|) + buf[..r] == d + buf[..r] <==> Appends(d, buf)
  {
    assert |Kept(d, |buf|) + buf[..r]| == |Kept(d, |buf|)| + r;
  }

  /** What fat12_init asks of the boot sector. */
  predicate Mountable(boot: Sector) {
    && boot[510] == 0x55 && boot[511] == 0xAA && boot[11] as int + 256 * (boot[12] as int) == 512 && boot[16] == 2
  }

  /** The boot sector with its parameter block. */
  function BootSector(): (r: Sector)
  {
    [0xEB, 0x3C, 0x90]                                             // jump
    + [0x52, 0x49, 0x53, 0x43, 0x56, 0x46, 0x41, 0x54]             // maker
    + [0, 2, 1, 1, 0, 2, 64, 0, 128, 0, 0xF8, 1, 0, 1, 0, 1, 0]    // sizes up to the number of heads
    + [0, 0, 0, 0, 0, 0, 0, 0, 0, 0, 0x29, 0x78, 0x56, 0x34, 0x12] // hidden sectors to volume number
    + [0x52, 0x49, 0x53, 0x43, 0x56, 0x20, 0x20, 0x20, 0x20, 0x20, 0x20]
    + [0x46, 0x41, 0x54, 0x31, 0x32, 0x20, 0x20, 0x20]
    + seq(448, _ => 0) + [0x55, 0xAA]
  }

  lemma BootMounts()
    ensures Mountable(BootSector())
  {
    var b := BootSector();
    assert b[11] == 0 && b[12] == 2 && b[16] == 2;
  }

  /** The table of an empty volume: the two reserved entries. */
  function EmptyFat(): Sector {
    [0xF8, 0xFF, 0xFF] + seq(509, _ => 0)
  }

  lemma FreshTable(chains: seq<seq<nat>>)
    requires |chains| == SLOTS && forall k | 0 <= k < SLOTS :: chains[k] == []
    ensures TableOk(EmptyFat(), chains) && FreeCount(EmptyFat(), LAST_CLUSTER + 1) == TOTAL_CLUSTERS
  {
    forall c | 2 <= c <= LAST_CLUSTER ensures GetEntry(EmptyFat(), c) == 0 {
      assert EmptyFat()[c * 3 / 2] == 0 && EmptyFat()[c * 3 / 2 + 1] == 0;
    }
    EmptyTable(EmptyFat(), chains);
    AllFree(EmptyFat(), LAST_CLUSTER + 1);
  }

  lemma BlankSlots(disk: Flash)
    requires disk[3] == BLANK && disk[4] == BLANK && disk[5] == BLANK && disk[6] == BLANK
    ensures forall k | 0 <= k < SLOTS :: Slot(disk, k)[0] == 0 && !Live(disk, k)
  {
    forall k | 0 <= k < SLOTS ensures Slot(disk, k)[0] == 0 {
      assert disk[ROOT_SECTOR + k / 16] == BLANK;
    }
  }

  lemma FreshNames(disk: Flash)
    requires forall k | 0 <= k < SLOTS :: Slot(disk, k)[0] == 0 && !Live(disk, k)
    ensures DirOk(disk)
  {
    hide Slot, NameOf;
  }

  lemma ClosedStored(disk: Flash, chains: seq<seq<nat>>, data: seq<seq<byte>>, writing: set<nat>, k: nat)
    requires SlotsOk(disk, chains, data, writing, SLOTS) && k < SLOTS
    ensures Stored(disk, chains[k], data[k])
  {
    hide Live, Held;
    assert SlotOk(disk, chains[k], data[k], k, k in writing);
  }

  lemma LinkAt(fat: Sector, chains: seq<seq<nat>>, k: nat, i: nat)
    requires TableOk(fat, chains) && k < SLOTS && i < |chains[k]|
    ensures IsCluster(chains[k][i]) && GetEntry(fat, chains[k][i]) == Follower(chains[k], i)
    ensures i + 1 < |chains[k]| ==> IsCluster(chains[k][i + 1])
  {
    hide GetEntry;
    assert IsChain(fat, chains[k]);
  }

  function Deleted(e: Entry): Entry {
    e[0 := DELETED]
  }

  lemma ClosedHead(disk: Flash, chains: seq<seq<nat>>, data: seq<seq<byte>>, writing: set<nat>, k: nat)
    requires SlotsOk(disk, chains, data, writing, SLOTS) && k < SLOTS && Live(disk, k) && k !in writing
    ensures ClusterOf(Slot(disk, k)) == Head(chains[k])
  {
    hide Slot, Stored, ClusterOf;
    assert SlotOk(disk, chains[k], data[k], k, k in writing);
  }

  lemma SlotsLoosen(disk: Flash, chains: seq<seq<nat>>, data: seq<seq<byte>>, writing: set<nat>, k: nat)
    requires SlotsOk(disk, chains, data, writing, SLOTS)
    ensures SlotsOk(disk, chains, data, writing, k)
  {
    hide SlotOk;
  }

  lemma DeletedEntry(disk: Flash, k: nat)
    requires k < SLOTS && Live(disk, k) && DirOk(disk)
    ensures var e := Deleted(Slot(disk, k));
            && DirOk(PutSlot(disk, k, e)) && Unused(e) && !Live(PutSlot(disk, k, e), k)
            && forall j | 0 <= j < SLOTS :: Slot(PutSlot(disk, k, e), j) == if j == k then e else Slot(disk, j)
  {
    hide Slot, PutSlot, DirOk;
    var e := Deleted(Slot(disk, k));
    ChangeKeepsDir(disk, k, e);
    PutChangesOne(disk, k, e);
  }

  lemma DeleteKeepsSlots(disk: Flash, chains: seq<seq<nat>>, data: seq<seq<byte>>, writing: set<nat>, k: nat)
    requires SlotsOk(disk, chains, data, writing, k) && k < SLOTS && chains[k] == [] && k !in writing
    ensures SlotsOk(PutSlot(disk, k, Deleted(Slot(disk, k))), chains, data[k := []], writing, SLOTS)
  {
    hide Slot, PutSlot, Stored;
    var e := Deleted(Slot(disk, k));
    var disk' := PutSlot(disk, k, e);
    PutChangesOne(disk, k, e);
    EmptyStored(disk');
    assert Slot(disk', k) == e;
    forall j | 0 <= j < SLOTS ensures SlotOk(disk', chains[j], data[k := []][j], j, j in writing) {
      if j != k {
        assert SlotOk(disk, chains[j], data[j], j, j in writing);
        PutKeepsStored(disk, k, e, chains[j], data[j]);
        assert Slot(disk', j) == Slot(disk, j);
      }
    }
  }

  lemma EmptyStored(disk: Flash)
    ensures Stored(disk, [], [])
  {
  }

  lemma PutIsUpdate(disk: Flash, k: nat, e: Entry)
    requires k < SLOTS
    ensures PutSlot(disk, k, e) == disk[ROOT_SECTOR + k / 16 := PutIn(disk[ROOT_SECTOR + k / 16], k % 16, e)]
    ensures Slot(disk, k) == EntryIn(disk[ROOT_SECTOR + k / 16], k % 16)
  {
  }

  lemma CopyKeepsAll(disk: Flash, i: nat, sec: Sector, chains: seq<seq<nat>>, data: seq<seq<byte>>,
                     writing: set<nat>, except: nat)
    requires i < ROOT_SECTOR && DirOk(disk) && SlotsOk(disk, chains, data, writing, except)
    ensures DirOk(disk[i := sec]) && SlotsOk(disk[i := sec], chains, data, writing, except)
    ensures forall j | 0 <= j < SLOTS :: Slot(disk[i := sec], j) == Slot(disk, j)
  {
    hide Slot, DirOk, Held;
    forall j | 0 <= j < SLOTS ensures Slot(disk[i := sec], j) == Slot(disk, j) {
      SlotElsewhere(disk, i, sec, j);
    }
    SameSlots(disk, disk[i := sec]);
    forall j | 0 <= j < SLOTS && j != except ensures SlotOk(disk[i := sec], chains[j], data[j], j, j in writing) {
      assert SlotOk(disk, chains[j], data[j], j, j in writing);
      HeldElsewhere(disk, chains[j], data[j], i, sec);
    }
  }

  lemma WriterIsLive(disk: Flash, chains: seq<seq<nat>>, data: seq<seq<byte>>, writing: set<nat>, k: nat)
    requires SlotsOk(disk, chains, data, writing, SLOTS) && k in writing && k < SLOTS
    ensures Live(disk, k)
  {
    hide Live, Stored;
    assert SlotOk(disk, chains[k], data[k], k, k in writing);
  }

  lemma EntryWithExtent(disk: Flash, k: nat, cluster: nat, size: uint32)
    requires k < SLOTS && Live(disk, k) && DirOk(disk) && cluster <= LAST_CLUSTER
    ensures var e := WithExtent(EntryIn(disk[ROOT_SECTOR + k / 16], k % 16), cluster, size);
            && DirOk(PutSlot(disk, k, e)) && !Unused(e) && ClusterOf(e) == cluster && SizeOf(e) == size
            && NameOf(e) == NameOf(Slot(disk, k))
            && forall j | 0 <= j < SLOTS :: Slot(PutSlot(disk, k, e), j) == if j == k then e else Slot(disk, j)
  {
    hide DirOk, PutSlot, EntryIn;
    var e := WithExtent(EntryIn(disk[ROOT_SECTOR + k / 16], k % 16), cluster, size);
    assert e[0] == NameOf(e)[0] == Slot(disk, k)[0];
    ChangeKeepsDir(disk, k, e);
    PutChangesOne(disk, k, e);
  }

  lemma CloseKeepsSlots(disk: Flash, chains: seq<seq<nat>>, data: seq<seq<byte>>, writing: set<nat>, k: nat, e: Entry)
    requires SlotsOk(disk, chains, data, writing, SLOTS) && k < SLOTS && !Unused(e) && ClusterOf(e) == Head(chains[k])
    ensures SlotsOk(PutSlot(disk, k, e), chains, data, writing - {k}, SLOTS)
    ensures Live(PutSlot(disk, k, e), k)
  {
    hide Slot, PutSlot, Stored;
    var disk' := PutSlot(disk, k, e);
    PutChangesOne(disk, k, e);
    assert Slot(disk', k) == e;
    forall j | 0 <= j < SLOTS ensures SlotOk(disk', chains[j], data[j], j, j in writing - {k}) {
      assert SlotOk(disk, chains[j], data[j], j, j in writing);
      PutKeepsStored(disk, k, e, chains[j], data[j]);
      assert Slot(disk', j) == if j == k then e else Slot(disk, j);
    }
  }

  lemma SlotAt(disk: Flash, s: nat, j: nat)
    requires s < 4 && j < 16
    ensures 16 * s + j < SLOTS && Slot(disk, 16 * s + j) == EntryIn(disk[ROOT_SECTOR + s], j)
  {
    assert (16 * s + j) / 16 == s && (16 * s + j) % 16 == j;
  }

  lemma NewEntryNamed(name: Name)
    ensures NameOf(NewEntry(name)) == name
  {
  }

  lemma NewEntryStart(name: Name)
    ensures NewEntry(name)[0] == name[0] && (Unused(NewEntry(name)) <==> name[0] == 0 || name[0] == DELETED)
  {
  }

  /** Directory writes leave the other sectors alone. */
  lemma PutKeepsCopies(disk: Flash, k: nat, e: Entry)
    requires k < SLOTS
    ensures PutSlot(disk, k, e)[1] == disk[1] && PutSlot(disk, k, e)[2] == disk[2]
    ensures forall i | FIRST_DATA_SECTOR <= i < SECTORS :: PutSlot(disk, k, e)[i] == disk[i]
  {
    hide PutIn;
  }

  lemma PutKeepsStored(disk: Flash, k: nat, e: Entry, ch: seq<nat>, d: seq<byte>)
    requires k < SLOTS && Stored(disk, ch, d)
    ensures Stored(PutSlot(disk, k, e), ch, d)
  {
    hide PutIn, Held;
    HeldElsewhere(disk, ch, d, ROOT_SECTOR + k / 16, PutIn(disk[ROOT_SECTOR + k / 16], k % 16, e));
  }

  lemma CreateKeepsSlots(disk: Flash, chains: seq<seq<nat>>, data: seq<seq<byte>>, writing: set<nat>, k: nat, e: Entry)
    requires SlotsOk(disk, chains, data, writing, SLOTS) && k < SLOTS && !Live(disk, k)
    ensures SlotsOk(PutSlot(disk, k, e), chains, data, if Unused(e) then writing else writing + {k}, SLOTS)
    ensures chains[k] == [] && data[k] == [] && k !in writing
  {
    hide Slot, PutSlot, Stored;
    var disk' := PutSlot(disk, k, e);
    PutChangesOne(disk, k, e);
    assert SlotOk(disk, chains[k], data[k], k, k in writing);
    StoredNothing(disk, data[k]);
    var writing' := if Unused(e) then writing else writing + {k};
    forall j | 0 <= j < SLOTS ensures SlotOk(disk', chains[j], data[j], j, j in writing') {
      assert SlotOk(disk, chains[j], data[j], j, j in writing);
      PutKeepsStored(disk, k, e, chains[j], data[j]);
      assert Slot(disk', j) == if j == k then e else Slot(disk, j);
    }
  }

  lemma StoredNothing(disk: Flash, d: seq<byte>)
    ensures Stored(disk, [], d) ==> d == []
  {
  }

  function At(data: seq<seq<byte>>, k: nat): seq<byte> {
    if k < |data| then data[k] else []
  }

  function Updated(data: seq<seq<byte>>, k: nat, d: seq<byte>): seq<seq<byte>> {
    if k < |data| then data[k := d] else data
  }

  /** A position moved on, in 32 bits. */
  function Advance(pos: uint32, n: nat): uint32 {
    (pos as int + n) % 0x1_0000_0000
  }

  lemma AdvanceTwice(pos: uint32, m: nat, n: nat)
    ensures Advance(Advance(pos, m), n) == Advance(pos, m + n)
  {
  }

  /** A size equal to the position stays so, unless 32 bits overflow. */
  ghost predicate Grows(pos: uint32, size: uint32, n: nat, pos': uint32, size': uint32) {
    pos == size && pos as int + n < 0x1_0000_0000 ==> size' == pos' == pos as int + n
  }

  lemma GrowsNone(pos: uint32, size: uint32)
    ensures Grows(pos, size, 0, pos, size) && Advance(pos, 0) == pos
  {
  }

  lemma GrowsOn(pos: uint32, size: uint32, m: nat, n: nat, p: uint32, s: uint32, p': uint32, s': uint32)
    requires Grows(pos, size, m, p, s) && p' == Advance(p, n) && s' == if n > 0 && p' > s then p' else s
    ensures Grows(pos, size, m + n, p', s')
  {
  }

  /** What a write keeps: a write that starts on a cluster boundary goes over the last cluster again. */
  function Kept(d: seq<byte>, n: nat): seq<byte> {
    if n > 0 && d != [] && |d| % 512 == 0 then d[..|d| - 512] else d
  }

  lemma NothingHeldIn(disk: Flash, ch: seq<nat>, x: seq<byte>)
    requires Held(disk, ch, x)
    ensures ch == [] ==> x == []
  {
  }

  lemma Started(fat: Sector, disk: Flash, chains: seq<seq<nat>>, data: seq<seq<byte>>, writing: set<nat>, k: nat,
                c: nat, x: seq<byte>)
    requires TableOk(fat, chains) && k < SLOTS && chains[k] == [] && IsCluster(c) && GetEntry(fat, c) == 0
    requires SlotsOk(disk, chains, data, writing, k) && Held(disk, chains[k], x)
    ensures TableOk(SetEntry(fat, c, EOC), Extended(chains, k, c))
    ensures FreeCount(SetEntry(fat, c, EOC), LAST_CLUSTER + 1) == FreeCount(fat, LAST_CLUSTER + 1) - 1
    ensures SlotsOk(disk, Extended(chains, k, c), data, writing, k) && Held(disk, chains[k] + [c], x)
  {
    hide TableOk, SlotsOk, Held, GetEntry, SetEntry, FreeCount;
    TableSize(fat, chains);
    StartChain(fat, chains, k, c);
    FreeCountSet(fat, c, EOC, LAST_CLUSTER + 1);
    HeldMore(disk, chains[k], x, c);
    SlotsExcept(disk, chains, Extended(chains, k, c), data, writing, k);
  }

  lemma SliceOn(kept: seq<byte>, buf: seq<byte>, m: nat, n: nat)
    requires m <= |buf| && n <= |buf[m..]|
    ensures kept + buf[..m] + buf[m..][..n] == kept + buf[..m + n]
  {
  }

  lemma SlotsExcept(disk: Flash, chains: seq<seq<nat>>, chains': seq<seq<nat>>, data: seq<seq<byte>>,
                    writing: set<nat>, k: nat)
    requires k < SLOTS && SlotsOk(disk, chains, data, writing, k) && |chains'| == SLOTS
    requires forall j | 0 <= j < SLOTS && j != k :: chains'[j] == chains[j]
    ensures SlotsOk(disk, chains', data, writing, k)
  {
    hide SlotOk;
  }

  lemma SameSlot(j: nat, k: nat)
    ensures j / 16 == k / 16 && j % 16 == k % 16 ==> j == k
  {
  }

  lemma NothingHeld(disk: Flash, x: seq<byte>)
    requires Held(disk, [], x)
    ensures x == []
  {
  }

  lemma MoveOn(pos: uint32, n: nat, m: nat)
    requires pos as int % 512 == m % 512
    ensures (pos as int + n) % 0x1_0000_0000 % 512 == (m + n) % 512
  {
    var t := pos as int + n;
    var q := t / 0x1_0000_0000;
    assert t == 0x1_0000_0000 * q + t % 0x1_0000_0000;
    assert t % 0x1_0000_0000 == t - 512 * (0x80_0000 * q);
  }

  lemma LastDiffers(fat: Sector, chains: seq<seq<nat>>, k: nat)
    requires TableOk(fat, chains) && k < SLOTS
    ensures |chains| == SLOTS
    ensures forall i | 0 <= i < |chains[k]| - 1 :: chains[k][i] != chains[k][|chains[k]| - 1]
    ensures chains[k] != [] ==> Last(chains[k]) in chains[k]
  {
    hide GetEntry, FreeCount, SumLen, IsChain;
  }

  lemma CountExtended(fat: Sector, chains: seq<seq<nat>>, k: nat, c: nat, last: nat)
    requires TableOk(fat, chains) && k < SLOTS && chains[k] != [] && last == Last(chains[k])
    requires IsCluster(c) && GetEntry(fat, c) == 0
    ensures IsCluster(last)
    ensures FreeCount(SetEntry(SetEntry(fat, c, EOC), last, c), LAST_CLUSTER + 1) ==
            FreeCount(fat, LAST_CLUSTER + 1) - 1
  {
    hide GetEntry, SetEntry, FreeCount, SumLen, Disjoint;
    ExtendChain(fat, chains, k, c, last);
    SumLenSet(chains, k, chains[k] + [c]);
  }

  lemma TableSize(buf: Sector, chains: seq<seq<nat>>)
    requires TableOk(buf, chains)
    ensures |chains| == SLOTS
  {
  }

  lemma HeadIsCluster(buf: Sector, chains: seq<seq<nat>>, k: nat)
    requires TableOk(buf, chains) && k < SLOTS
    ensures |chains| == SLOTS
    ensures chains[k] != [] ==> IsCluster(Head(chains[k])) && IsCluster(Last(chains[k]))
  {
    hide GetEntry;
    assert IsChain(buf, chains[k]);
  }

  lemma DataKeepsDir(disk: Flash, s: nat, sec: Sector)
    requires FIRST_DATA_SECTOR <= s < SECTORS
    ensures DirOk(disk) ==> DirOk(disk[s := sec])
    ensures forall k | 0 <= k < SLOTS :: Slot(disk[s := sec], k) == Slot(disk, k)
    ensures forall k | 0 <= k < SLOTS :: Live(disk[s := sec], k) == Live(disk, k)
  {
    hide Slot, DirOk;
    forall k | 0 <= k < SLOTS ensures Slot(disk[s := sec], k) == Slot(disk, k) {
      SlotElsewhere(disk, s, sec, k);
    }
    if DirOk(disk) {
      SameSlots(disk, disk[s := sec]);
    }
  }

  lemma DataKeepsSlots(disk: Flash, s: nat, sec: Sector, fat: Sector, chains: seq<seq<nat>>, data: seq<seq<byte>>,
                       writing: set<nat>, k: nat, c: nat)
    requires TableOk(fat, chains) && k < SLOTS && c in chains[k] && IsCluster(c) && s == ClusterToSector(c)
    requires SlotsOk(disk, chains, data, writing, k)
    ensures SlotsOk(disk[s := sec], chains, data, writing, k)
  {
    hide GetEntry, FreeCount, SumLen, IsChain, Slot, Held, Live;
    DataKeepsDir(disk, s, sec);
    forall j | 0 <= j < SLOTS && j != k
      ensures SlotOk(disk[s := sec], chains[j], data[j], j, j in writing)
    {
      var i :| 0 <= i < |chains[k]| && chains[k][i] == c;
      OnlyIn(chains, k, i, j);
      HeldElsewhere(disk, chains[j], data[j], s, sec);
    }
  }
}
