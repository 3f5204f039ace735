/**
 Concrete valid directories. One with twelve full direct blocks and one indirect block: sync_dir_entry
 loses an entry of it, delete_dir_entry does not return. One with twelve full direct blocks and no
 table: with one block left, sync_dir_entry leaves the bitmap on disk behind; with more, it stores an
 entry that cannot be deleted again.
 */
module DirWitness {
  import opened Common
  import opened DirStore
  import opened DirListing
  import opened DirInvariant
  import opened DirTheorems

  // ------------------------------------------ from distinct slots to a listing

  lemma {:induction false} LivePlaces(row: seq<DirEntry>, p: nat, q: nat) returns (k: nat, m: nat)
    requires p < q < |Live(row)|
    ensures k < m < |row| && row[k] == Live(row)[p] && row[m] == Live(row)[q] && IsLive(row[k]) && IsLive(row[m])
  {
    if !IsLive(row[0]) {
      k, m := LivePlaces(row[1..], p, q);
      k, m := k + 1, m + 1;
    } else if p > 0 {
      k, m := LivePlaces(row[1..], p - 1, q - 1);
      k, m := k + 1, m + 1;
    } else {
      k := 0;
      m := LivePlace(row[1..], q - 1);
      m := m + 1;
    }
  }

  lemma {:induction false} LivePlace(row: seq<DirEntry>, p: nat) returns (k: nat)
    requires p < |Live(row)|
    ensures k < |row| && row[k] == Live(row)[p] && IsLive(row[k])
  {
    if IsLive(row[0]) && p == 0 {
      k := 0;
    } else {
      k := LivePlace(row[1..], if IsLive(row[0]) then p - 1 else p);
      k := k + 1;
    }
  }

  lemma {:induction false} ListedPlace(rows: seq<seq<DirEntry>>, p: nat) returns (i: nat, k: nat)
    requires p < |Listing(rows)|
    ensures i < |rows| && k < |rows[i]| && rows[i][k] == Listing(rows)[p] && IsLive(rows[i][k])
  {
    var first := |Live(rows[0])|;
    if p < first {
      i := 0;
      k := LivePlace(rows[0], p);
    } else {
      i, k := ListedPlace(rows[1..], p - first);
      i := i + 1;
    }
  }

  /** Two places of the listing come from two slots, in order. */
  lemma {:induction false} ListedPlaces(rows: seq<seq<DirEntry>>, p: nat, q: nat) returns (i: nat, k: nat, j: nat, m: nat)
    requires p < q < |Listing(rows)|
    ensures i < |rows| && k < |rows[i]| && rows[i][k] == Listing(rows)[p] && IsLive(rows[i][k])
    ensures j < |rows| && m < |rows[j]| && rows[j][m] == Listing(rows)[q] && IsLive(rows[j][m])
    ensures i < j || (i == j && k < m)
  {
    var first := |Live(rows[0])|;
    if q < first {
      i, j := 0, 0;
      k, m := LivePlaces(rows[0], p, q);
    } else if p < first {
      i := 0;
      k := LivePlace(rows[0], p);
      j, m := ListedPlace(rows[1..], q - first);
      j := j + 1;
    } else {
      i, k, j, m := ListedPlaces(rows[1..], p - first, q - first);
      i, j := i + 1, j + 1;
    }
  }

  ghost predicate SlotsApart(rows: seq<seq<DirEntry>>) {
    (forall i, k :: 0 <= i < |rows| && 0 <= k < |rows[i]| && IsLive(rows[i][k]) ==> GoodName(rows[i][k].name)) &&
    forall i, k, j, m :: 0 <= i < |rows| && 0 <= k < |rows[i]| && 0 <= j < |rows| && 0 <= m < |rows[j]| &&
                         IsLive(rows[i][k]) && IsLive(rows[j][m]) && (i < j || (i == j && k < m)) ==>
                         rows[i][k].name != rows[j][m].name && rows[i][k].ino != rows[j][m].ino
  }

  lemma GoodFromSlots(rows: seq<seq<DirEntry>>)
    requires Tidy(rows) && SlotsApart(rows)
    ensures GoodList(Listing(rows))
  {
    var l := Listing(rows);
    forall p, q | 0 <= p < q < |l|
      ensures l[p].name != l[q].name && l[p].ino != l[q].ino
    {
      var i, k, j, m := ListedPlaces(rows, p, q);
    }
    forall p | 0 <= p < |l|
      ensures IsLive(l[p]) && GoodName(l[p].name)
    {
      var i, k := ListedPlace(rows, p);
    }
    FirstTwo(rows);
  }

  lemma FirstTwo(rows: seq<seq<DirEntry>>)
    requires Tidy(rows)
    ensures |Listing(rows)| >= 2 && Listing(rows)[..2] == rows[0][..2]
  {
    var r := rows[0];
    assert r[1..][0] == r[1] && r[1..][1..] == r[2..];
    assert Live(r) == [r[0]] + ([r[1]] + Live(r[2..]));
  }

  // ----------------------------------------------------------- the directory

  function Name(i: nat, k: nat): string
    requires i < 26 && k < 26
  {
    if i == 0 && k == 0 then "." else if i == 0 && k == 1 then ".." else ['A' + i as char, 'A' + k as char]
  }

  function Entry(i: nat, k: nat): DirEntry
    requires i < 26 && k < SLOTS
  {
    DirEntry(Name(i, k), 1 + SLOTS * i + k, 2)
  }

  function FullRow(i: nat): (r: seq<DirEntry>)
    requires i < DIRECT
    ensures |r| == SLOTS && forall k :: 0 <= k < SLOTS ==> r[k] == Entry(i, k)
  {
    seq(SLOTS, k requires 0 <= k < SLOTS => Entry(i, k))
  }

  const TABLE_LBA: nat := 13
  const INDIRECT_LBA: nat := 14

  const FULL_DISK: Disk := map b: nat | 1 <= b <= INDIRECT_LBA ::
    if b <= DIRECT then Slots(FullRow(b - 1))
    else if b == TABLE_LBA then Table(NewTable(INDIRECT_LBA))
    else Slots(NewRow(Entry(DIRECT, 0)))

  const FULL_NODE := Inode(seq(DIRECT + 1, i => i + 1), ENTRY_SIZE * (DIRECT * SLOTS + 1))

  const FULL_USED: set<nat> := set b: nat | 1 <= b <= INDIRECT_LBA

  const FULL_VOLUME := Volume(1, 20, FULL_DISK, FULL_USED, FULL_USED)

  lemma FullBlocks()
    ensures Readable(FULL_NODE, FULL_DISK)
    ensures forall i :: 0 <= i < BLOCKS ==>
              Blocks(FULL_NODE, FULL_DISK)[i] == if i < DIRECT then i + 1 else if i == DIRECT then INDIRECT_LBA else 0
    ensures forall i :: 0 <= i < BLOCKS ==>
              Rows(FULL_NODE, FULL_DISK)[i] ==
                if i < DIRECT then FullRow(i) else if i == DIRECT then NewRow(Entry(DIRECT, 0)) else []
  {
    assert FULL_NODE.sectors[DIRECT] == TABLE_LBA;
    assert TABLE_LBA in FULL_DISK && FULL_DISK[TABLE_LBA].refs == NewTable(INDIRECT_LBA);
    assert TableOk(FULL_NODE, FULL_DISK);
  }

  lemma FullOwned()
    ensures TableOk(FULL_NODE, FULL_DISK) && Owned(FULL_NODE, FULL_DISK) == FULL_USED && Distinct(FULL_NODE, FULL_DISK)
  {
    FullBlocks();
    var bs := Blocks(FULL_NODE, FULL_DISK);
    forall b: nat | 1 <= b <= INDIRECT_LBA && b != TABLE_LBA
      ensures b in bs
    {
      assert b == bs[if b <= DIRECT then b - 1 else DIRECT];
    }
  }

  lemma FullTidy()
    ensures Readable(FULL_NODE, FULL_DISK) && Tidy(Rows(FULL_NODE, FULL_DISK))
  {
    FullBlocks();
    var rows := Rows(FULL_NODE, FULL_DISK);
    forall i | 0 < i < BLOCKS && rows[i] != []
      ensures Live(rows[i]) != []
    {
      assert IsLive(rows[i][0]);
    }
  }

  lemma EntriesApart(i: nat, k: nat, j: nat, m: nat)
    requires i <= DIRECT && k < SLOTS && j <= DIRECT && m < SLOTS && (i < j || (i == j && k < m))
    ensures Entry(i, k).name != Entry(j, m).name && Entry(i, k).ino != Entry(j, m).ino
  {
    assert |Name(i, k)| == 2 && |Name(j, m)| == 2 && Name(j, m) != ".." ==> Name(j, m) == ['A' + j as char, 'A' + m as char];
    if i == j {
      assert Name(j, m)[|Name(j, m)| - 1] != Name(i, k)[|Name(i, k)| - 1] || |Name(i, k)| != |Name(j, m)|;
    } else {
      assert Name(j, m)[0] != Name(i, k)[0];
    }
  }

  lemma FullSlot(i: nat, k: nat)
    requires Readable(FULL_NODE, FULL_DISK)
    requires i < BLOCKS && k < |Rows(FULL_NODE, FULL_DISK)[i]| && IsLive(Rows(FULL_NODE, FULL_DISK)[i][k])
    ensures i <= DIRECT && k < SLOTS && Rows(FULL_NODE, FULL_DISK)[i][k] == Entry(i, k)
  {
    FullBlocks();
  }

  lemma FullApart()
    ensures Readable(FULL_NODE, FULL_DISK) && SlotsApart(Rows(FULL_NODE, FULL_DISK))
  {
    FullTidy();
    var rows := Rows(FULL_NODE, FULL_DISK);
    forall i, k | 0 <= i < |rows| && 0 <= k < |rows[i]| && IsLive(rows[i][k])
      ensures GoodName(rows[i][k].name)
    {
      FullSlot(i, k);
    }
    forall i, k, j, m | 0 <= i < |rows| && 0 <= k < |rows[i]| && 0 <= j < |rows| && 0 <= m < |rows[j]| &&
                        IsLive(rows[i][k]) && IsLive(rows[j][m]) && (i < j || (i == j && k < m))
      ensures rows[i][k].name != rows[j][m].name && rows[i][k].ino != rows[j][m].ino
    {
      FullSlot(i, k);
      FullSlot(j, m);
      EntriesApart(i, k, j, m);
    }
  }

  lemma {:induction false} AllLive(row: seq<DirEntry>)
    requires forall k :: 0 <= k < |row| ==> IsLive(row[k])
    ensures Live(row) == row
  {
    if row != [] {
      AllLive(row[1..]);
    }
  }

  lemma {:induction false} FullCount(rows: seq<seq<DirEntry>>, k: nat)
    requires k <= |rows| && forall i :: 0 <= i < k ==> |rows[i]| == SLOTS && forall m :: 0 <= m < SLOTS ==> IsLive(rows[i][m])
    ensures |Listing(rows[..k])| == SLOTS * k
  {
    if k > 0 {
      FullCount(rows, k - 1);
      assert rows[..k] == rows[..k - 1] + [rows[k - 1]];
      ListingConcat(rows[..k - 1], [rows[k - 1]]);
      AllLive(rows[k - 1]);
      assert Listing([rows[k - 1]]) == Live(rows[k - 1]) + [];
    }
  }

  lemma FullSize()
    ensures Readable(FULL_NODE, FULL_DISK) && FULL_NODE.size == ENTRY_SIZE * |List(FULL_NODE, FULL_DISK)|
  {
    FullBlocks();
    var rows := Rows(FULL_NODE, FULL_DISK);
    FullCount(rows, DIRECT);
    TailListing(rows[..DIRECT], rows);
    NewRowLive(Entry(DIRECT, 0));
  }

  lemma FullGood()
    ensures Readable(FULL_NODE, FULL_DISK) && GoodList(List(FULL_NODE, FULL_DISK))
  {
    FullTidy();
    FullApart();
    GoodFromSlots(Rows(FULL_NODE, FULL_DISK));
  }

  lemma FullTableUsed()
    ensures TableOk(FULL_NODE, FULL_DISK) && TableInUse(FULL_NODE, FULL_DISK) && FULL_NODE.sectors[DIRECT] != 0
  {
    FullBlocks();
    assert Blocks(FULL_NODE, FULL_DISK)[DIRECT] != 0;
  }

  lemma InvIntro(n: Inode, v: Volume)
    requires VolumeOk(v) && Readable(n, v.disk) && Distinct(n, v.disk) && Tidy(Rows(n, v.disk)) && GoodList(List(n, v.disk))
    requires n.size == ENTRY_SIZE * |List(n, v.disk)| && v.used == Owned(n, v.disk)
    requires n.sectors[DIRECT] != 0 ==> TableInUse(n, v.disk)
    ensures Inv(n, v, {})
  {
  }

  lemma FullVolumeOk()
    ensures VolumeOk(FULL_VOLUME)
  {
  }

  lemma FullIsValid()
    ensures Inv(FULL_NODE, FULL_VOLUME, {})
  {
    FullVolumeOk();
    FullOwned();
    FullTidy();
    FullSize();
    FullGood();
    FullTableUsed();
    InvIntro(FULL_NODE, FULL_VOLUME);
  }

  lemma FullNoRoom()
    ensures Readable(FULL_NODE, FULL_DISK) && !InScope(FULL_NODE, FULL_VOLUME)
  {
    FullBlocks();
    FullTableUsed();
  }

  /** One insertion into it succeeds and makes the entry "MA" of the indirect block unfindable. */
  lemma FullDirectoryLosesEntry()
    ensures Inv(FULL_NODE, FULL_VOLUME, {})
    ensures var e := DirEntry("new", 999, 1);
            var s := Sync(FULL_NODE, FULL_VOLUME, e);
            s.result.Stored? && Readable(s.node, s.vol.disk) &&
            Find(List(FULL_NODE, FULL_DISK), "MA").Some? && Find(List(s.node, s.vol.disk), "MA").None?
  {
    FullIsValid();
    FullNoRoom();
    var e := DirEntry("new", 999, 1);
    TwoFree(e);
    OutOfScopeListing(FULL_NODE, FULL_VOLUME, {}, e);
    WasListed();
    NowMissing(e);
  }

  lemma WasListed()
    ensures Readable(FULL_NODE, FULL_DISK) && Find(List(FULL_NODE, FULL_DISK), "MA").Some?
  {
    FullSlots12();
    SlotListed(Rows(FULL_NODE, FULL_DISK), DIRECT, 0);
    FindExact(List(FULL_NODE, FULL_DISK), "MA");
  }

  lemma NowMissing(e: DirEntry)
    requires e.name == "new"
    ensures Readable(FULL_NODE, FULL_DISK) && Find(Listing(Rows(FULL_NODE, FULL_DISK)[..DIRECT]) + [e], "MA").None?
  {
    NotDirect();
    FindExact(Listing(Rows(FULL_NODE, FULL_DISK)[..DIRECT]) + [e], "MA");
  }

  lemma FullSlots12()
    ensures Readable(FULL_NODE, FULL_DISK)
    ensures var row := Rows(FULL_NODE, FULL_DISK)[DIRECT]; |row| == SLOTS && IsLive(row[0]) && row[0].name == "MA"
  {
    FullBlocks();
  }

  /** No direct block holds the name "MA". */
  lemma NotDirect()
    ensures Readable(FULL_NODE, FULL_DISK)
    ensures forall x :: x in Listing(Rows(FULL_NODE, FULL_DISK)[..DIRECT]) ==> x.name != "MA"
  {
    FullTidy();
    var rows := Rows(FULL_NODE, FULL_DISK);
    forall x | x in Listing(rows[..DIRECT])
      ensures x.name != "MA"
    {
      var i, k := ListedSlot(rows[..DIRECT], x);
      FullSlot(i, k);
      EntriesApart(i, k, DIRECT, 0);
    }
  }

  lemma TwoFree(e: DirEntry)
    ensures Readable(FULL_NODE, FULL_DISK)
    ensures Alloc(FULL_VOLUME).Some? && SyncNewTable(FULL_NODE, FULL_VOLUME, e).result.Stored?
  {
    FullTidy();
    assert 15 !in FULL_VOLUME.used && 16 !in FULL_VOLUME.used;
    var t := Alloc(FULL_VOLUME).value;
    var v1 := SyncBitmap(Take(FULL_VOLUME, t), t);
    assert 15 !in v1.used || 16 !in v1.used;
  }

  /** Deleting the entry "MA", alone in its indirect block, does not return. */
  lemma FullDirectoryHangs()
    ensures Inv(FULL_NODE, FULL_VOLUME, {})
    ensures Delete(FULL_NODE, FULL_VOLUME, Entry(DIRECT, 0).ino).result == Hangs
  {
    FullIsValid();
    FullBlocks();
    NewRowLive(Entry(DIRECT, 0));
    DeleteKeepsInv(FULL_NODE, FULL_VOLUME, {}, Entry(DIRECT, 0).ino);
    assert IsVictim(Rows(FULL_NODE, FULL_DISK)[DIRECT][0], Entry(DIRECT, 0).ino);
  }

  // ------------------------------------------- full direct blocks and no table

  const TIGHT_NODE := Inode(seq(DIRECT + 1, i => if i == DIRECT then 0 else i + 1), ENTRY_SIZE * (DIRECT * SLOTS))

  const TIGHT_USED: set<nat> := set b: nat | 1 <= b <= DIRECT

  /** A partition of `bits` blocks, twelve of them the directory's. */
  function TightVolume(bits: nat): Volume { Volume(1, bits, FULL_DISK, TIGHT_USED, TIGHT_USED) }

  lemma TightBlocks()
    ensures Readable(TIGHT_NODE, FULL_DISK) && Readable(FULL_NODE, FULL_DISK)
    ensures forall i :: 0 <= i < BLOCKS ==> Blocks(TIGHT_NODE, FULL_DISK)[i] == if i < DIRECT then i + 1 else 0
    ensures forall i :: 0 <= i < BLOCKS ==> Rows(TIGHT_NODE, FULL_DISK)[i] == if i < DIRECT then FullRow(i) else []
    ensures Rows(TIGHT_NODE, FULL_DISK) == Rows(FULL_NODE, FULL_DISK)[DIRECT := []]
  {
    FullBlocks();
    assert TableOk(TIGHT_NODE, FULL_DISK);
  }

  lemma TightOwned()
    ensures TableOk(TIGHT_NODE, FULL_DISK) && Owned(TIGHT_NODE, FULL_DISK) == TIGHT_USED && Distinct(TIGHT_NODE, FULL_DISK)
  {
    TightBlocks();
    var bs := Blocks(TIGHT_NODE, FULL_DISK);
    forall b: nat | 1 <= b <= DIRECT
      ensures b in bs
    {
      assert b == bs[b - 1];
    }
  }

  /** Dropping a row behind row 0 keeps rows tidy and apart. */
  lemma RowDropped(rows: seq<seq<DirEntry>>, i: nat)
    requires Tidy(rows) && SlotsApart(rows) && 0 < i < BLOCKS
    ensures Tidy(rows[i := []]) && SlotsApart(rows[i := []])
  {
  }

  lemma TightGood()
    ensures Readable(TIGHT_NODE, FULL_DISK) && Tidy(Rows(TIGHT_NODE, FULL_DISK)) && GoodList(List(TIGHT_NODE, FULL_DISK))
  {
    TightBlocks();
    FullTidy();
    FullApart();
    RowDropped(Rows(FULL_NODE, FULL_DISK), DIRECT);
    GoodFromSlots(Rows(TIGHT_NODE, FULL_DISK));
  }

  lemma TightSize()
    ensures Readable(TIGHT_NODE, FULL_DISK) && TIGHT_NODE.size == ENTRY_SIZE * |List(TIGHT_NODE, FULL_DISK)|
  {
    TightBlocks();
    var rows := Rows(TIGHT_NODE, FULL_DISK);
    FullCount(rows, DIRECT);
    TailListing(rows[..DIRECT], rows);
  }

  lemma TightIsValid(bits: nat)
    requires bits >= DIRECT
    ensures Inv(TIGHT_NODE, TightVolume(bits), {})
  {
    TightOwned();
    TightGood();
    TightSize();
    assert TIGHT_NODE.sectors[DIRECT] == 0;
    InvIntro(TIGHT_NODE, TightVolume(bits));
  }

  lemma TightNoRoom()
    ensures Readable(TIGHT_NODE, FULL_DISK) && FirstRoom(Rows(TIGHT_NODE, FULL_DISK), 0) == DIRECT
  {
    TightBlocks();
    var rows := Rows(TIGHT_NODE, FULL_DISK);
    forall i | 0 <= i < DIRECT
      ensures !HasRoom(rows[i])
    {
      assert forall k :: 0 <= k < SLOTS ==> IsLive(rows[i][k]);
    }
  }

  /** The lowest free address of the partition, and the next one. */
  lemma TightAlloc(bits: nat)
    requires bits > DIRECT
    ensures Alloc(TightVolume(bits)) == Some(TABLE_LBA)
    ensures Alloc(Take(TightVolume(bits), TABLE_LBA)) == if bits > DIRECT + 1 then Some(INDIRECT_LBA) else None
  {
    assert TABLE_LBA !in TIGHT_USED && forall b :: 1 <= b <= DIRECT ==> b in TIGHT_USED;
    var v := Take(TightVolume(bits), TABLE_LBA);
    assert INDIRECT_LBA !in v.used && forall b :: 1 <= b <= TABLE_LBA ==> b in v.used;
  }

  /** One block left: the failed insertion leaves that block marked in the bitmap on disk only. */
  lemma LastBlockLeaks(e: DirEntry)
    ensures Inv(TIGHT_NODE, TightVolume(13), {}) && TableThenFull(TIGHT_NODE, TightVolume(13))
    ensures var s := Sync(TIGHT_NODE, TightVolume(13), e);
            s.result == NoSpace && s.vol.used == TIGHT_USED && s.vol.synced == TIGHT_USED + {TABLE_LBA} != s.vol.used
  {
    var v := TightVolume(13);
    TightIsValid(13);
    TightNoRoom();
    TightAlloc(13);
    BitmapOnDiskIff(TIGHT_NODE, v, e);
    AllocIgnoresSynced(Take(v, TABLE_LBA), SyncBitmap(Take(v, TABLE_LBA), TABLE_LBA), v.start);
  }

  /** More blocks left: the insertion starts the table, and the deletion of what it stored hangs. */
  lemma StoredThenHangs(bits: nat)
    requires bits > DIRECT + 1
    ensures Inv(TIGHT_NODE, TightVolume(bits), {})
    ensures var e := Entry(DIRECT, 0);
            var s := Sync(TIGHT_NODE, TightVolume(bits), e);
            s.result == Stored(DIRECT) && Readable(s.node, s.vol.disk) && Delete(s.node, s.vol, e.ino).result == Hangs
  {
    var v, e := TightVolume(bits), Entry(DIRECT, 0);
    TightIsValid(bits);
    TightStored(bits, e);
    TightFresh();
    SyncIndirectThenDeleteHangs(TIGHT_NODE, v, {}, e);
  }

  lemma TightStored(bits: nat, e: DirEntry)
    requires bits > DIRECT + 1
    ensures Readable(TIGHT_NODE, FULL_DISK) && Sync(TIGHT_NODE, TightVolume(bits), e).result == Stored(DIRECT)
  {
    var v := TightVolume(bits);
    TightNoRoom();
    TightAlloc(bits);
    AllocIgnoresSynced(Take(v, TABLE_LBA), SyncBitmap(Take(v, TABLE_LBA), TABLE_LBA), v.start);
  }

  lemma TightFresh()
    ensures Readable(TIGHT_NODE, FULL_DISK) && Fresh(Entry(DIRECT, 0), List(TIGHT_NODE, FULL_DISK))
  {
    TightBlocks();
    var rows := Rows(TIGHT_NODE, FULL_DISK);
    forall x | x in List(TIGHT_NODE, FULL_DISK)
      ensures x.name != Entry(DIRECT, 0).name && x.ino != Entry(DIRECT, 0).ino
    {
      var i, k := ListedSlot(rows, x);
      EntriesApart(i, k, DIRECT, 0);
    }
  }
}
