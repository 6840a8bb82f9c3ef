/** The root directory: 64 entries of 32 bytes in sectors 3 to 6. */
module FatDir {
  import opened Bits
  import opened FatTable

  const ROOT_SECTOR := 3
  const SECTORS := 128
  const ARCHIVE: byte := 0x20
  const DELETED: byte := 0xE5

  type Name = s: seq<byte> | |s| == 11 witness seq(11, _ => 0x20)

  type Entry = s: seq<byte> | |s| == 32 witness seq(32, _ => 0)

  const BLANK: Sector := seq(512, _ => 0)

  type Flash = s: seq<Sector> | |s| == SECTORS witness seq<Sector>(SECTORS, _ => BLANK)

  /** Entry j of a directory sector. */
  function EntryIn(sec: Sector, j: nat): Entry
    requires j < 16
  {
    sec[32 * j..32 * j + 32]
  }

  function PutIn(sec: Sector, j: nat, e: Entry): Sector
    requires j < 16
  {
    sec[..32 * j] + e + sec[32 * j + 32..]
  }

  lemma EntryOfPutIn(sec: Sector, j: nat, e: Entry, i: nat)
    requires i < 16 && j < 16
    ensures EntryIn(PutIn(sec, j, e), i) == if i == j then e else EntryIn(sec, i)
  {
    var t := PutIn(sec, j, e);
    if i < j {
      assert t[32 * i..32 * i + 32] == sec[32 * i..32 * i + 32];
    } else if i > j {
      assert t[32 * i..32 * i + 32] == sec[32 * i..32 * i + 32];
    } else {
      assert t[32 * i..32 * i + 32] == e;
    }
  }

  function Slot(flash: Flash, k: nat): Entry
    requires k < SLOTS
  {
    EntryIn(flash[ROOT_SECTOR + k / 16], k % 16)
  }

  function PutSlot(flash: Flash, k: nat, e: Entry): Flash
    requires k < SLOTS
  {
    flash[ROOT_SECTOR + k / 16 := PutIn(flash[ROOT_SECTOR + k / 16], k % 16, e)]
  }

  /** Writing one entry changes no other. */
  lemma SlotOfPut(flash: Flash, k: nat, e: Entry, j: nat)
    requires j < SLOTS && k < SLOTS
    ensures Slot(PutSlot(flash, k, e), j) == if j == k then e else Slot(flash, j)
  {
    hide EntryIn, PutIn;
    if j / 16 == k / 16 {
      EntryOfPutIn(flash[ROOT_SECTOR + k / 16], k % 16, e, j % 16);
    }
  }

  /** Sectors outside the directory hold no entries. */
  lemma SlotElsewhere(flash: Flash, i: nat, sec: Sector, j: nat)
    requires j < SLOTS && i < SECTORS && (i < ROOT_SECTOR || i >= ROOT_SECTOR + 4)
    ensures Slot(flash[i := sec], j) == Slot(flash, j)
  {
  }

  /* ---- Fields ---- */

  function NameOf(e: Entry): Name {
    e[..11]
  }

  function ClusterOf(e: Entry): nat {
    e[26] as int + 256 * (e[27] as int)
  }

  function SizeOf(e: Entry): uint32 {
    FromLe32(e[28..32])
  }

  function NewEntry(name: Name): Entry {
    name + [ARCHIVE] + seq(20, _ => 0)
  }

  function WithExtent(e: Entry, cluster: nat, size: uint32): (r: Entry)
    requires cluster < 0x1_0000
    ensures NameOf(r) == NameOf(e) && ClusterOf(r) == cluster && SizeOf(r) == size
  {
    Le32RoundTrip(size);
    var r: Entry := e[..26] + [cluster % 256, cluster / 256] + Le32(size);
    assert r[28..32] == Le32(size);
    r
  }

  predicate Unused(e: Entry) {
    e[0] == 0 || e[0] == DELETED
  }

  /** Slot k names a file. */
  predicate Live(flash: Flash, k: nat)
    requires k < SLOTS
  {
    !Unused(Slot(flash, k))
  }

  /** No entry after the end mark is used. */
  ghost predicate EndOk(flash: Flash) {
    forall j, k | 0 <= j < k < SLOTS :: Slot(flash, j)[0] == 0 ==> Slot(flash, k)[0] == 0
  }

  /** No two files share a name. */
  ghost predicate NamesOk(flash: Flash) {
    forall j, k | 0 <= j < SLOTS && 0 <= k < SLOTS && Live(flash, j) && Live(flash, k) ::
      NameOf(Slot(flash, j)) == NameOf(Slot(flash, k)) ==> j == k
  }

  ghost predicate DirOk(flash: Flash) {
    EndOk(flash) && NamesOk(flash)
  }

  /** Only slot k differs. */
  ghost predicate OneChanged(flash: Flash, flash': Flash, k: nat, e: Entry) {
    forall j | 0 <= j < SLOTS :: Slot(flash', j) == if j == k then e else Slot(flash, j)
  }

  /** Well-formedness only depends on the entries. */
  lemma SameSlots(flash: Flash, flash': Flash)
    requires DirOk(flash) && forall k | 0 <= k < SLOTS :: Slot(flash', k) == Slot(flash, k)
    ensures DirOk(flash')
  {
    hide Slot, NameOf;
    forall j, k | 0 <= j < SLOTS && 0 <= k < SLOTS && Live(flash', j) && Live(flash', k) &&
                  NameOf(Slot(flash', j)) == NameOf(Slot(flash', k))
      ensures j == k
    {
      assert Live(flash, j) && Live(flash, k);
    }
  }

  lemma PutChangesOne(flash: Flash, k: nat, e: Entry)
    requires k < SLOTS
    ensures OneChanged(flash, PutSlot(flash, k, e), k, e)
  {
    hide Slot, PutSlot;
    forall j | 0 <= j < SLOTS ensures Slot(PutSlot(flash, k, e), j) == if j == k then e else Slot(flash, j) {
      SlotOfPut(flash, k, e, j);
    }
  }

  /* ---- Searching ---- */

  /** The slot dir_find stops at from k on, or -1. */
  function Find(flash: Flash, name: Name, k: nat): (r: int)
    requires k <= SLOTS
    ensures r == -1 || k <= r < SLOTS
    decreases SLOTS - k
  {
    if k == SLOTS || Slot(flash, k)[0] == 0 then -1
    else if Slot(flash, k)[0] != DELETED && NameOf(Slot(flash, k)) == name then k
    else Find(flash, name, k + 1)
  }

  /** One entry of the search. */
  lemma FindAt(flash: Flash, name: Name, k: nat)
    requires k < SLOTS
    ensures var e := Slot(flash, k);
            Find(flash, name, k) ==
            if e[0] == 0 then -1 else if e[0] != DELETED && NameOf(e) == name then k else Find(flash, name, k + 1)
  {
    hide Slot, NameOf;
  }

  /** In a well-formed directory the search finds the file of that name, if there is one. */
  lemma {:induction false} FindMeans(flash: Flash, name: Name, k: nat, j: nat)
    requires DirOk(flash) && k <= j < SLOTS && Live(flash, j)
    ensures Find(flash, name, k) != -1 ==> Live(flash, Find(flash, name, k))
    ensures NameOf(Slot(flash, j)) == name ==> Find(flash, name, k) == j
    decreases SLOTS - k
  {
    hide Slot;
    if k < j {
      FindMeans(flash, name, k + 1, j);
    } else {
      FindLive(flash, name, k);
    }
  }

  lemma {:induction false} FindLive(flash: Flash, name: Name, k: nat)
    requires k <= SLOTS
    ensures var r := Find(flash, name, k); r != -1 ==> Live(flash, r) && NameOf(Slot(flash, r)) == name
    decreases SLOTS - k
  {
    hide Slot;
    if k < SLOTS {
      FindLive(flash, name, k + 1);
    }
  }

  /** The slot fat12_create takes, or -1 in a full directory. */
  function FirstUnused(flash: Flash, k: nat): (r: int)
    requires k <= SLOTS
    ensures r == -1 || k <= r < SLOTS
    ensures r != -1 ==> Unused(Slot(flash, r)) && forall j | k <= j < r :: Live(flash, j)
    ensures r == -1 ==> forall j | k <= j < SLOTS :: Live(flash, j)
    decreases SLOTS - k
  {
    if k == SLOTS then -1
    else if Unused(Slot(flash, k)) then k
    else FirstUnused(flash, k + 1)
  }

  /** A new entry in the first unused slot keeps the directory well-formed. */
  lemma CreateKeepsDir(flash: Flash, name: Name, e: Entry)
    requires DirOk(flash) && Find(flash, name, 0) == -1 && FirstUnused(flash, 0) != -1
    requires NameOf(e) == name && e[0] != 0
    ensures DirOk(PutSlot(flash, FirstUnused(flash, 0), e))
  {
    hide Slot, PutSlot, Find, EndOk, NamesOk, NameOf;
    var k := FirstUnused(flash, 0);
    PutChangesOne(flash, k, e);
    forall j | 0 <= j < SLOTS && Live(flash, j) ensures NameOf(Slot(flash, j)) != name {
      FindMeans(flash, name, 0, j);
    }
    forall j | 0 <= j < k ensures Slot(flash, j)[0] != 0 {
      assert Live(flash, j);
    }
    EndKept(flash, PutSlot(flash, k, e), k, e);
    NamesKept(flash, PutSlot(flash, k, e), k, e);
  }

  lemma EndKept(flash: Flash, flash': Flash, k: nat, e: Entry)
    requires EndOk(flash) && k < SLOTS && OneChanged(flash, flash', k, e) && e[0] != 0
    requires forall j | 0 <= j < k :: Slot(flash, j)[0] != 0
    ensures EndOk(flash')
  {
    hide Slot;
  }

  lemma NoEndBefore(flash: Flash, k: nat)
    requires EndOk(flash) && k < SLOTS && Slot(flash, k)[0] != 0
    ensures forall j | 0 <= j < k :: Slot(flash, j)[0] != 0
  {
    hide Slot;
  }

  lemma NamesKept(flash: Flash, flash': Flash, k: nat, e: Entry)
    requires NamesOk(flash) && k < SLOTS && OneChanged(flash, flash', k, e)
    requires Unused(e) || forall j | 0 <= j < SLOTS && j != k && Live(flash, j) :: NameOf(Slot(flash, j)) != NameOf(e)
    ensures NamesOk(flash')
  {
    hide Slot;
  }

  /** A changed entry that is live under the same name, or deleted, keeps the directory well-formed. */
  lemma ChangeKeepsDir(flash: Flash, k: nat, e: Entry)
    requires DirOk(flash) && k < SLOTS && Live(flash, k)
    requires e[0] == DELETED || (NameOf(e) == NameOf(Slot(flash, k)) && e[0] == Slot(flash, k)[0])
    ensures DirOk(PutSlot(flash, k, e))
  {
    hide Slot, PutSlot, NameOf;
    PutChangesOne(flash, k, e);
    var flash' := PutSlot(flash, k, e);
    NoEndBefore(flash, k);
    EndKept(flash, flash', k, e);
    NamesKept(flash, flash', k, e);
  }

  /** After creating a file its name is found, exactly unless it begins with the deleted mark. */
  lemma CreatedIsFound(flash: Flash, name: Name)
    requires DirOk(flash) && Find(flash, name, 0) == -1 && FirstUnused(flash, 0) != -1 && name[0] != 0
    ensures var k := FirstUnused(flash, 0); var flash' := PutSlot(flash, k, NewEntry(name));
            (Find(flash', name, 0) == k <==> name[0] != DELETED) && (name[0] == DELETED ==> Find(flash', name, 0) == -1)
  {
    hide PutSlot, Slot, Find;
    var k := FirstUnused(flash, 0);
    var e := NewEntry(name);
    var flash' := PutSlot(flash, k, e);
    SlotOfPut(flash, k, e, k);
    assert NameOf(e) == name && e[0] == name[0];
    if name[0] != DELETED {
      CreateKeepsDir(flash, name, e);
      FindMeans(flash', name, 0, k);
    } else {
      FindLive(flash', name, 0);
      FirstByte(flash', name);
    }
  }

  lemma FirstByte(flash: Flash, name: Name)
    requires name[0] == DELETED
    ensures Find(flash, name, 0) == -1
  {
    hide Slot;
    FindLive(flash, name, 0);
  }
}
