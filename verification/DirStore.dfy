/**
 The directory store of fs/dir.c as values: sectors, inodes and the shared block
 bitmap, the two views every operation is judged by (the rows of slots and the
 listing of live entries), and what sync_dir_entry and delete_dir_entry do to them.
 */
module DirStore {
  import opened Common

  const SLOTS: nat := 21        // 512 / sizeof(struct dir_entry)
  const ENTRY_SIZE: nat := 24   // sizeof(struct dir_entry)
  const DIRECT: nat := 12
  const BLOCKS: nat := 140      // 12 direct blocks and 128 indirect ones
  const BITS_PER_SECTOR: nat := 4096

  /** One directory entry; `ftype` 0 (FT_UNKNOWN) marks a dead slot. */
  datatype DirEntry = DirEntry(name: string, ino: nat, ftype: nat)

  const ZERO := DirEntry("", 0, 0)

  /** What a sector holds when it is read as a directory needs it. */
  datatype Sector = Slots(slots: seq<DirEntry>) | Table(refs: seq<nat>) | Raw(bytes: seq<nat>)

  type Disk = map<nat, Sector>

  datatype Inode = Inode(sectors: seq<nat>, size: nat)

  /** A partition: data blocks have the addresses start .. start + bits. `used` is the
      block bitmap in memory, `synced` the copy of it on disk. */
  datatype Volume = Volume(start: nat, bits: nat, disk: Disk, used: set<nat>, synced: set<nat>)

  predicate IsLive(e: DirEntry) { e.ftype != 0 }

  predicate IsDot(e: DirEntry) { e.name == "." || e.name == ".." }

  // ---------------------------------------------------------------- the rows

  predicate IsTable(d: Disk, b: nat) { b in d && d[b].Table? && |d[b].refs| == BLOCKS - DIRECT }

  predicate IsSlots(d: Disk, b: nat) { b in d && d[b].Slots? && |d[b].slots| == SLOTS }

  predicate TableOk(n: Inode, d: Disk) {
    |n.sectors| == DIRECT + 1 && (n.sectors[DIRECT] != 0 ==> IsTable(d, n.sectors[DIRECT]))
  }

  function Zeros(k: nat): (r: seq<nat>)
    ensures |r| == k && forall i :: 0 <= i < k ==> r[i] == 0
  {
    seq(k, _ => 0)
  }

  /** all_blocks: the direct addresses, then the indirect ones (0 where there is no block). */
  function Blocks(n: Inode, d: Disk): (r: seq<nat>)
    requires TableOk(n, d)
    ensures |r| == BLOCKS
  {
    n.sectors[..DIRECT] +
    (if n.sectors[DIRECT] == 0 then Zeros(BLOCKS - DIRECT) else d[n.sectors[DIRECT]].refs)
  }

  predicate Readable(n: Inode, d: Disk) {
    TableOk(n, d) &&
    forall i :: 0 <= i < BLOCKS && Blocks(n, d)[i] != 0 ==> IsSlots(d, Blocks(n, d)[i])
  }

  function Row(d: Disk, b: nat): (r: seq<DirEntry>)
    requires b != 0 ==> IsSlots(d, b)
    ensures |r| == if b == 0 then 0 else SLOTS
  {
    if b == 0 then [] else d[b].slots
  }

  /** The slots of every block, the empty row where no block is allocated. */
  function Rows(n: Inode, d: Disk): (r: seq<seq<DirEntry>>)
    requires Readable(n, d)
    ensures |r| == BLOCKS
    ensures forall i :: 0 <= i < BLOCKS ==> r[i] == Row(d, Blocks(n, d)[i])
  {
    seq(BLOCKS, i requires 0 <= i < BLOCKS => Row(d, Blocks(n, d)[i]))
  }

  function NonZero(bs: seq<nat>): set<nat> { set b | b in bs && b != 0 }

  /** Every block the directory holds, the indirect table included. */
  function Owned(n: Inode, d: Disk): set<nat>
    requires TableOk(n, d)
  {
    NonZero(Blocks(n, d)) + (if n.sectors[DIRECT] == 0 then {} else {n.sectors[DIRECT]})
  }

  ghost predicate Distinct(n: Inode, d: Disk)
    requires TableOk(n, d)
  {
    (forall i, j :: 0 <= i < j < BLOCKS && Blocks(n, d)[i] != 0 ==> Blocks(n, d)[i] != Blocks(n, d)[j]) &&
    (n.sectors[DIRECT] != 0 ==> n.sectors[DIRECT] !in Blocks(n, d))
  }

  // ------------------------------------------------------------- the listing

  function Live(slots: seq<DirEntry>): seq<DirEntry> {
    if slots == [] then []
    else (if IsLive(slots[0]) then [slots[0]] else []) + Live(slots[1..])
  }

  /** The live entries in block and slot order: what a directory is to its users. */
  function Listing(rows: seq<seq<DirEntry>>): seq<DirEntry> {
    if rows == [] then [] else Live(rows[0]) + Listing(rows[1..])
  }

  /** All slots in order, dead ones included. */
  function AllSlots(rows: seq<seq<DirEntry>>): seq<DirEntry> {
    if rows == [] then [] else rows[0] + AllSlots(rows[1..])
  }

  /** The first entry of that name. */
  function Find(slots: seq<DirEntry>, name: string): Option<DirEntry> {
    if slots == [] then None
    else if slots[0].name == name then Some(slots[0])
    else Find(slots[1..], name)
  }

  function List(n: Inode, d: Disk): seq<DirEntry>
    requires Readable(n, d)
  {
    Listing(Rows(n, d))
  }

  // ----------------------------------------------------------- the invariant

  predicate GoodName(s: string) { 0 < |s| < NAME_LEN && NoNul(s) }

  ghost predicate GoodList(l: seq<DirEntry>) {
    |l| >= 2 && l[0].name == "." && l[1].name == ".." &&
    (forall i :: 0 <= i < |l| ==> IsLive(l[i]) && GoodName(l[i].name)) &&
    (forall i, j :: 0 <= i < j < |l| ==> l[i].name != l[j].name) &&
    (forall i, j :: 2 <= i < j < |l| ==> l[i].ino != l[j].ino)
  }

  ghost predicate TidyRow(row: seq<DirEntry>) {
    (row == [] || |row| == SLOTS) &&
    forall k :: 0 <= k < |row| ==> (IsLive(row[k]) || row[k] == ZERO)
  }

  /** Dead slots are all zero; "." and ".." lead block 0; no other block is without a live entry. */
  ghost predicate Tidy(rows: seq<seq<DirEntry>>) {
    |rows| == BLOCKS && (forall i :: 0 <= i < BLOCKS ==> TidyRow(rows[i])) &&
    rows[0] != [] && IsLive(rows[0][0]) && IsLive(rows[0][1]) &&
    rows[0][0].name == "." && rows[0][1].name == ".." &&
    forall i :: 0 < i < BLOCKS && rows[i] != [] ==> Live(rows[i]) != []
  }

  ghost predicate VolumeOk(v: Volume) {
    0 < v.start && forall b :: b in v.used ==> v.start <= b < v.start + v.bits
  }

  /** The directory invariant. `others` are the blocks in use that belong to someone else. */
  ghost predicate Inv(n: Inode, v: Volume, others: set<nat>) {
    VolumeOk(v) && Readable(n, v.disk) && Distinct(n, v.disk) &&
    Tidy(Rows(n, v.disk)) && GoodList(List(n, v.disk)) &&
    n.size == ENTRY_SIZE * |List(n, v.disk)| &&
    v.used == others + Owned(n, v.disk) && others !! Owned(n, v.disk) &&
    (n.sectors[DIRECT] != 0 ==> TableInUse(n, v.disk))
  }

  ghost predicate TableInUse(n: Inode, d: Disk)
    requires TableOk(n, d)
  {
    exists i :: DIRECT <= i < BLOCKS && Blocks(n, d)[i] != 0
  }

  // -------------------------------------------------------------- the bitmap

  /** bitmap_scan: the lowest free address from `b` on. */
  function FirstFree(v: Volume, b: nat): (r: Option<nat>)
    requires v.start <= b <= v.start + v.bits
    ensures r.Some? ==> b <= r.value < v.start + v.bits && r.value !in v.used &&
                        forall c :: b <= c < r.value ==> c in v.used
    ensures r.None? ==> forall c :: b <= c < v.start + v.bits ==> c in v.used
    decreases v.start + v.bits - b
  {
    if b == v.start + v.bits then None
    else if b !in v.used then Some(b)
    else FirstFree(v, b + 1)
  }

  predicate IsFree(v: Volume, b: nat) { v.start <= b < v.start + v.bits && b !in v.used }

  ghost predicate NoneFree(v: Volume) { forall b :: !IsFree(v, b) }

  ghost predicate LowestFree(v: Volume, b: nat) { IsFree(v, b) && forall c :: IsFree(v, c) ==> b <= c }

  /** block_bitmap_alloc: the lowest free block of the partition. */
  function Alloc(v: Volume): (r: Option<nat>)
    ensures r.None? <==> NoneFree(v)
    ensures r.Some? ==> LowestFree(v, r.value)
  {
    var r := FirstFree(v, v.start);
    assert r.Some? ==> IsFree(v, r.value);
    r
  }

  function Take(v: Volume, b: nat): Volume { v.(used := v.used + {b}) }

  function Release(v: Volume, b: nat): Volume { v.(used := v.used - {b}) }

  /** bitmap_sync writes the whole bitmap sector that holds the bit of `b`. */
  predicate SameBitmapSector(v: Volume, b: nat, c: nat) {
    (c - v.start) / BITS_PER_SECTOR == (b - v.start) / BITS_PER_SECTOR
  }

  function SyncBitmap(v: Volume, b: nat): Volume {
    v.(synced := (set c | c in v.synced && !SameBitmapSector(v, b, c)) +
                 (set c | c in v.used && SameBitmapSector(v, b, c)))
  }

  function Write(v: Volume, b: nat, s: Sector): Volume { v.(disk := v.disk[b := s]) }

  // ---------------------------------------------------------- sync_dir_entry

  function FirstHole(row: seq<DirEntry>): (k: nat)
    ensures k <= |row| && (k < |row| ==> !IsLive(row[k]))
    ensures forall j :: 0 <= j < k ==> IsLive(row[j])
  {
    if row == [] || !IsLive(row[0]) then 0 else 1 + FirstHole(row[1..])
  }

  predicate HasRoom(row: seq<DirEntry>) { row == [] || FirstHole(row) < |row| }

  /** The first direct block from `i` on that is missing or has a dead slot; 12 if none. */
  function FirstRoom(rows: seq<seq<DirEntry>>, i: nat): (r: nat)
    requires |rows| == BLOCKS && i <= DIRECT
    ensures i <= r <= DIRECT && (r < DIRECT ==> HasRoom(rows[r]))
    ensures forall j :: i <= j < r ==> !HasRoom(rows[j])
    decreases DIRECT - i
  {
    if i == DIRECT || HasRoom(rows[i]) then i else FirstRoom(rows, i + 1)
  }

  /** A zeroed block whose first slot is `e`. */
  function NewRow(e: DirEntry): (r: seq<DirEntry>)
    ensures |r| == SLOTS && r[0] == e && forall k :: 0 < k < SLOTS ==> r[k] == ZERO
  {
    seq(SLOTS, k => if k == 0 then e else ZERO)
  }

  /** A fresh indirect table whose only block is `b`. */
  function NewTable(b: nat): (r: seq<nat>)
    ensures |r| == BLOCKS - DIRECT && r[0] == b && forall k :: 0 < k < |r| ==> r[k] == 0
  {
    seq(BLOCKS - DIRECT, k => if k == 0 then b else 0)
  }

  datatype SyncResult = Stored(block: nat) | NoSpace

  datatype Synced = Synced(result: SyncResult, node: Inode, vol: Volume)

  function Grow(n: Inode): Inode { n.(size := n.size + ENTRY_SIZE) }

  function SyncIntoHole(n: Inode, v: Volume, e: DirEntry, i: nat): Synced
    requires Readable(n, v.disk) && i < DIRECT && n.sectors[i] != 0 && FirstHole(Rows(n, v.disk)[i]) < SLOTS
  {
    var row := Rows(n, v.disk)[i];
    Synced(Stored(i), Grow(n), Write(v, n.sectors[i], Slots(row[FirstHole(row) := e])))
  }

  function SyncNewBlock(n: Inode, v: Volume, e: DirEntry, i: nat): Synced
    requires |n.sectors| == DIRECT + 1 && i < DIRECT
  {
    match Alloc(v)
    case None => Synced(NoSpace, n, v)
    case Some(b) =>
      Synced(Stored(i), Grow(n.(sectors := n.sectors[i := b])), Write(SyncBitmap(Take(v, b), b), b, Slots(NewRow(e))))
  }

  /** Every direct block is full: a new table and its first block, whatever table there was. */
  function SyncNewTable(n: Inode, v: Volume, e: DirEntry): Synced
    requires |n.sectors| == DIRECT + 1
  {
    match Alloc(v)
    case None => Synced(NoSpace, n, v)
    case Some(t) =>
      var v1 := SyncBitmap(Take(v, t), t);
      match Alloc(v1)
      case None => Synced(NoSpace, n.(sectors := n.sectors[DIRECT := 0]), Release(v1, t))
      case Some(b) =>
        var v2 := Write(SyncBitmap(Take(v1, b), b), t, Table(NewTable(b)));
        Synced(Stored(DIRECT), Grow(n.(sectors := n.sectors[DIRECT := t])), Write(v2, b, Slots(NewRow(e))))
  }

  function Sync(n: Inode, v: Volume, e: DirEntry): Synced
    requires Readable(n, v.disk)
  {
    var i := FirstRoom(Rows(n, v.disk), 0);
    if i == DIRECT then SyncNewTable(n, v, e)
    else if n.sectors[i] == 0 then SyncNewBlock(n, v, e, i)
    else SyncIntoHole(n, v, e, i)
  }

  // -------------------------------------------------------- delete_dir_entry

  predicate IsVictim(e: DirEntry, ino: nat) { IsLive(e) && !IsDot(e) && e.ino == ino }

  function Victim(row: seq<DirEntry>, ino: nat): (k: nat)
    ensures k <= |row| && (k < |row| ==> IsVictim(row[k], ino))
    ensures forall j :: 0 <= j < k ==> !IsVictim(row[j], ino)
  {
    if row == [] || IsVictim(row[0], ino) then 0 else 1 + Victim(row[1..], ino)
  }

  /** dir_entry_cnt: the live entries of a block other than "." and "..". */
  function Count(row: seq<DirEntry>): nat {
    if row == [] then 0
    else (if IsLive(row[0]) && !IsDot(row[0]) then 1 else 0) + Count(row[1..])
  }

  /** is_dir_first_block */
  predicate HasDot(row: seq<DirEntry>) { exists k :: 0 <= k < |row| && IsLive(row[k]) && row[k].name == "." }

  function FindBlock(rows: seq<seq<DirEntry>>, ino: nat, i: nat): (r: nat)
    requires i <= |rows|
    ensures i <= r <= |rows| && (r < |rows| ==> Victim(rows[r], ino) < |rows[r]|)
    ensures forall j :: i <= j < r ==> Victim(rows[j], ino) == |rows[j]|
    decreases |rows| - i
  {
    if i == |rows| || Victim(rows[i], ino) < |rows[i]| then i else FindBlock(rows, ino, i + 1)
  }

  datatype DeleteResult = Removed | NotFound | Hangs

  datatype Deleted = Deleted(result: DeleteResult, node: Inode, vol: Volume)

  function Shrink(n: Inode): Inode { n.(size := if n.size < ENTRY_SIZE then 0 else n.size - ENTRY_SIZE) }

  /** The block is given back: its bit is cleared and synced, then its address is dropped.
      For an indirect block the code first counts the table in a loop that never advances. */
  function FreeBlock(n: Inode, v: Volume, i: nat): Deleted
    requires Readable(n, v.disk) && i < BLOCKS
  {
    var b := Blocks(n, v.disk)[i];
    var v1 := SyncBitmap(Release(v, b), b);
    if i < DIRECT then Deleted(Removed, Shrink(n.(sectors := n.sectors[i := 0])), v1)
    else Deleted(Hangs, n, v1)
  }

  function ClearSlot(n: Inode, v: Volume, i: nat, k: nat): Deleted
    requires Readable(n, v.disk) && i < BLOCKS && k < |Rows(n, v.disk)[i]|
  {
    Deleted(Removed, Shrink(n), Write(v, Blocks(n, v.disk)[i], Slots(Rows(n, v.disk)[i][k := ZERO])))
  }

  predicate FreesBlock(row: seq<DirEntry>) { Count(row) == 1 && !HasDot(row) }

  function Delete(n: Inode, v: Volume, ino: nat): Deleted
    requires Readable(n, v.disk)
  {
    var rows := Rows(n, v.disk);
    var i := FindBlock(rows, ino, 0);
    if i == BLOCKS then Deleted(NotFound, n, v)
    else if FreesBlock(rows[i]) then FreeBlock(n, v, i)
    else ClearSlot(n, v, i, Victim(rows[i], ino))
  }
}
