/**
 fs/dir.c as it runs: loops over block and slot indices that change the inode, the shared
 bitmap and the sectors in place, each proved against the value-level specification.
 */
module DirOps {
  import opened Common
  import opened DirStore
  import opened DirListing
  import opened DirInvariant
  import opened DirTheorems
  import opened DirRuns

  /** struct partition: the block bitmap in memory, its copy on disk, and the sectors. */
  class Partition {
    const start: nat
    const bits: nat
    var disk: Disk
    var used: set<nat>
    var synced: set<nat>

    constructor (start: nat, bits: nat, disk: Disk, used: set<nat>)
      ensures Vol() == Volume(start, bits, disk, used, used)
    {
      this.start, this.bits, this.disk, this.used, this.synced := start, bits, disk, used, used;
    }

    ghost function Vol(): Volume
      reads this
    {
      Volume(start, bits, disk, used, synced)
    }

    /** block_bitmap_alloc: takes the lowest free block, or reports that there is none. */
    method BlockBitmapAlloc() returns (lba: Option<nat>)
      modifies this`used
      ensures lba == Alloc(old(Vol())) && Vol() == if lba.Some? then Take(old(Vol()), lba.value) else old(Vol())
      ensures lba.None? ==> used == old(used) && forall b :: start <= b < start + bits ==> b in used
      ensures lba.Some? ==> start <= lba.value < start + bits && lba.value !in old(used) && used == old(used) + {lba.value} &&
                            forall b :: start <= b < lba.value ==> b in old(used)
    {
      var b := start;
      while b < start + bits && b in used
        invariant start <= b <= start + bits
        invariant FirstFree(Vol(), b) == Alloc(Vol())
      {
        b := b + 1;
      }
      if b == start + bits {
        return None;
      }
      used := used + {b};
      return Some(b);
    }

    method BitmapClear(b: nat)
      modifies this`used
      ensures Vol() == Release(old(Vol()), b)
    {
      used := used - {b};
    }

    method BitmapSync(b: nat)
      modifies this`synced
      ensures Vol() == SyncBitmap(old(Vol()), b)
      ensures var first := start + (b - start) / BITS_PER_SECTOR * BITS_PER_SECTOR;
              forall c :: c in synced <==> c in if first <= c < first + BITS_PER_SECTOR then used else old(synced)
    {
      synced := (set c | c in synced && (c - start) / BITS_PER_SECTOR != (b - start) / BITS_PER_SECTOR) +
                (set c | c in used && (c - start) / BITS_PER_SECTOR == (b - start) / BITS_PER_SECTOR);
      assert Vol() == SyncBitmap(old(Vol()), b);
    }

    method IdeWrite(b: nat, s: Sector)
      modifies this`disk
      ensures Vol() == Write(old(Vol()), b, s)
    {
      disk := disk[b := s];
    }
  }

  /** struct dir with its inode: thirteen block addresses, the byte size, the read position. */
  class Dir {
    const sectors: array<nat>
    var size: nat
    var pos: nat

    constructor (n: Inode)
      requires |n.sectors| == DIRECT + 1
      ensures Node() == n && pos == 0 && fresh(sectors)
    {
      var a := new nat[DIRECT + 1](i requires 0 <= i < |n.sectors| => n.sectors[i]);
      sectors, size, pos := a, n.size, 0;
    }

    ghost function Node(): Inode
      reads this, sectors
    {
      Inode(sectors[..], size)
    }
  }

  // ------------------------------------------------------------ gathering blocks

  /** all_blocks: the twelve direct addresses, and behind them the table if there is one and it is
      wanted. The callers only read it. */
  method GatherBlocks(part: Partition, dir: Dir, table: bool) returns (blocks: seq<nat>)
    requires Readable(dir.Node(), part.disk)
    ensures table ==> blocks == Blocks(dir.Node(), part.disk)
    ensures !table ==> blocks == dir.sectors[..DIRECT] + Zeros(BLOCKS - DIRECT)
  {
    var all := new nat[BLOCKS](i => 0);
    var i := 0;
    while i < DIRECT
      invariant i <= DIRECT
      invariant forall j :: 0 <= j < i ==> all[j] == dir.sectors[j]
      invariant forall j :: i <= j < BLOCKS ==> all[j] == 0
    {
      all[i] := dir.sectors[i];
      i := i + 1;
    }
    if table && dir.sectors[DIRECT] != 0 {
      var refs := part.disk[dir.sectors[DIRECT]].refs;
      var j := 0;
      while j < BLOCKS - DIRECT
        invariant j <= BLOCKS - DIRECT
        invariant forall m :: 0 <= m < DIRECT ==> all[m] == dir.sectors[m]
        invariant forall m :: 0 <= m < j ==> all[DIRECT + m] == refs[m]
      {
        all[DIRECT + j] := refs[j];
        j := j + 1;
      }
      assert all[..] == dir.sectors[..DIRECT] + refs;
    } else {
      assert all[..] == dir.sectors[..DIRECT] + Zeros(BLOCKS - DIRECT);
    }
    return all[..];
  }

  // ------------------------------------------------------------ search_dir_entry

  lemma {:induction false} AllSlotsConcat(a: seq<seq<DirEntry>>, b: seq<seq<DirEntry>>)
    ensures AllSlots(a + b) == AllSlots(a) + AllSlots(b)
  {
    if a == [] {
      assert a + b == b;
    } else {
      assert (a + b)[1..] == a[1..] + b;
      AllSlotsConcat(a[1..], b);
    }
  }

  /** Nothing of that name before row `i`: the answer is what row `i` and the rest give. */
  lemma FindFrom(rows: seq<seq<DirEntry>>, i: nat, name: string)
    requires i < |rows| && Find(AllSlots(rows[..i]), name).None?
    ensures Find(AllSlots(rows), name) == Find(rows[i] + AllSlots(rows[i + 1..]), name)
    ensures Find(AllSlots(rows[..i + 1]), name) == Find(rows[i], name)
    ensures Find(rows[i], name).Some? ==> Find(AllSlots(rows), name) == Find(rows[i], name)
  {
    assert rows == rows[..i] + rows[i..];
    AllSlotsConcat(rows[..i], rows[i..]);
    assert rows[i..][1..] == rows[i + 1..];
    FindConcat(AllSlots(rows[..i]), AllSlots(rows[i..]), name);
    assert rows[..i + 1] == rows[..i] + [rows[i]];
    AllSlotsConcat(rows[..i], [rows[i]]);
    assert AllSlots([rows[i]]) == rows[i] by { assert rows[i] + [] == rows[i]; }
    FindConcat(AllSlots(rows[..i]), rows[i], name);
    FindConcat(rows[i], AllSlots(rows[i + 1..]), name);
  }

  lemma FindAt(row: seq<DirEntry>, k: nat, name: string)
    requires k < |row| && Find(row[..k], name).None?
    ensures row[k].name == name ==> Find(row, name) == Some(row[k])
    ensures row[k].name != name ==> Find(row[..k + 1], name).None?
  {
    assert row == row[..k] + row[k..];
    FindConcat(row[..k], row[k..], name);
    assert row[..k + 1] == row[..k] + [row[k]];
    FindConcat(row[..k], [row[k]], name);
  }

  method SearchBlock(buf: seq<DirEntry>, name: string) returns (r: Option<DirEntry>)
    requires |buf| == SLOTS
    ensures r == Find(buf, name)
  {
    var k := 0;
    while k < SLOTS
      invariant k <= SLOTS && Find(buf[..k], name).None?
    {
      FindAt(buf, k, name);
      if buf[k].name == name {
        return Some(buf[k]);
      }
      k := k + 1;
    }
    assert buf[..SLOTS] == buf;
    return None;
  }

  method SearchDirEntry(part: Partition, dir: Dir, name: string) returns (r: Option<DirEntry>)
    requires Readable(dir.Node(), part.disk)
    ensures r == Find(AllSlots(Rows(dir.Node(), part.disk)), name)
  {
    ghost var rows := Rows(dir.Node(), part.disk);
    var blocks := GatherBlocks(part, dir, true);
    var i := 0;
    while i < BLOCKS
      invariant i <= BLOCKS && Find(AllSlots(rows[..i]), name).None?
    {
      FindFrom(rows, i, name);
      if blocks[i] != 0 {
        var buf := part.disk[blocks[i]].slots;
        r := SearchBlock(buf, name);
        if r.Some? {
          return;
        }
      }
      i := i + 1;
    }
    assert rows[..BLOCKS] == rows;
    return None;
  }

  // -------------------------------------------------------------- sync_dir_entry

  /** Every call returns from the first thirteen blocks; "directory is full" is never reported. */
  method SyncDirEntry(part: Partition, dir: Dir, e: DirEntry) returns (r: SyncResult)
    requires Readable(dir.Node(), part.disk) && dir.size % ENTRY_SIZE == 0
    modifies part, dir`size, dir.sectors
    ensures Synced(r, dir.Node(), part.Vol()) == old(Sync(dir.Node(), part.Vol(), e))
  {
    ghost var n, v := dir.Node(), part.Vol();
    ghost var rows := Rows(n, v.disk);
    var blocks := GatherBlocks(part, dir, false);
    var i := 0;
    while i < BLOCKS
      invariant i <= DIRECT && dir.Node() == n && part.Vol() == v
      invariant FirstRoom(rows, 0) == FirstRoom(rows, i)
    {
      if blocks[i] == 0 {
        r := SyncToNewBlock(part, dir, e, i, n, v);
        return;
      }
      assert blocks[i] == n.sectors[i] == Blocks(n, v.disk)[i];
      var buf := part.disk[blocks[i]].slots;
      var k := FindFree(buf);
      if k < SLOTS {
        part.IdeWrite(blocks[i], Slots(buf[k := e]));
        dir.size := dir.size + ENTRY_SIZE;
        return Stored(i);
      }
      i := i + 1;
    }
    assert false;
  }

  /** The first dead slot of a sector. */
  method FindFree(buf: seq<DirEntry>) returns (k: nat)
    requires |buf| == SLOTS
    ensures k == FirstHole(buf)
  {
    k := 0;
    while k < SLOTS
      invariant k <= SLOTS && forall j :: 0 <= j < k ==> IsLive(buf[j])
    {
      if buf[k].ftype == 0 {
        return;
      }
      k := k + 1;
    }
  }

  /** The address is 0: allocate, and for block 12 allocate a table first. */
  method SyncToNewBlock(part: Partition, dir: Dir, e: DirEntry, i: nat, ghost n: Inode, ghost v: Volume) returns (r: SyncResult)
    requires Readable(n, v.disk) && dir.Node() == n && part.Vol() == v
    requires i == FirstRoom(Rows(n, v.disk), 0) && (i < DIRECT ==> n.sectors[i] == 0)
    modifies part, dir`size, dir.sectors
    ensures Synced(r, dir.Node(), part.Vol()) == Sync(n, v, e)
  {
    assert Sync(n, v, e) == if i == DIRECT then SyncNewTable(n, v, e) else SyncNewBlock(n, v, e, i);
    var lba := AllocSynced(part);
    if lba.None? {
      return NoSpace;
    }
    var target := lba.value;
    if i < DIRECT {
      dir.sectors[i] := lba.value;
    } else {
      var second := StartTable(part, dir, lba.value, n);
      if second.None? {
        return NoSpace;
      }
      target := second.value;
    }
    assert dir.sectors[..] == n.sectors[i := lba.value];
    part.IdeWrite(target, Slots(NewRow(e)));
    dir.size := dir.size + ENTRY_SIZE;
    return Stored(i);
  }

  /** Block `t` becomes the indirect table and a second block its first entry, or `t` is given up. */
  method StartTable(part: Partition, dir: Dir, t: nat, ghost n: Inode) returns (second: Option<nat>)
    requires |n.sectors| == DIRECT + 1 && dir.Node() == n
    modifies part, dir.sectors
    ensures second == Alloc(old(part.Vol())) && dir.size == n.size
    ensures second.None? ==> dir.sectors[..] == n.sectors[DIRECT := 0] && part.Vol() == Release(old(part.Vol()), t)
    ensures second.Some? ==> dir.sectors[..] == n.sectors[DIRECT := t]
    ensures second.Some? ==>
              part.Vol() == Write(SyncBitmap(Take(old(part.Vol()), second.value), second.value), t, Table(NewTable(second.value)))
  {
    dir.sectors[DIRECT] := t;
    second := AllocSynced(part);
    if second.None? {
      part.BitmapClear(dir.sectors[DIRECT]);
      dir.sectors[DIRECT] := 0;
    } else {
      part.IdeWrite(dir.sectors[DIRECT], Table(NewTable(second.value)));
    }
  }

  /** A block is allocated and the bitmap written back at once. */
  method AllocSynced(part: Partition) returns (lba: Option<nat>)
    modifies part`used, part`synced
    ensures lba == Alloc(old(part.Vol()))
    ensures part.Vol() == if lba.Some? then SyncBitmap(Take(old(part.Vol()), lba.value), lba.value) else old(part.Vol())
  {
    lba := part.BlockBitmapAlloc();
    if lba.Some? {
      part.BitmapSync(lba.value);
    }
  }

  // ------------------------------------------------------------ delete_dir_entry

  lemma {:induction false} CountConcat(a: seq<DirEntry>, b: seq<DirEntry>)
    ensures Count(a + b) == Count(a) + Count(b)
  {
    if a == [] {
      assert a + b == b;
    } else {
      assert (a + b)[1..] == a[1..] + b;
      CountConcat(a[1..], b);
    }
  }

  lemma CountSnoc(row: seq<DirEntry>, k: nat)
    requires k < |row|
    ensures Count(row[..k + 1]) == Count(row[..k]) + if IsLive(row[k]) && !IsDot(row[k]) then 1 else 0
    ensures HasDot(row[..k + 1]) <==> HasDot(row[..k]) || (IsLive(row[k]) && row[k].name == ".")
  {
    assert row[..k + 1] == row[..k] + [row[k]];
    CountConcat(row[..k], [row[k]]);
    if HasDot(row[..k]) {
      var j :| 0 <= j < |row[..k]| && IsLive(row[..k][j]) && row[..k][j].name == ".";
      assert row[..k + 1][j] == row[j];
    }
    assert row[..k + 1][k] == row[k];
  }

  /** One block's worth of delete_dir_entry: how many ordinary entries, is "." among them, and
      where is the inode. The assertion that no second entry has it never fails. */
  method ScanBlock(buf: seq<DirEntry>, ino: nat, ghost rows: seq<seq<DirEntry>>, ghost i: nat)
    returns (cnt: nat, first: bool, found: Option<nat>)
    requires i < |rows| && buf == rows[i] && |buf| == SLOTS && GoodList(Listing(rows))
    ensures cnt == Count(buf) && first == HasDot(buf)
    ensures if found.Some? then found.value == Victim(buf, ino) < SLOTS else Victim(buf, ino) == SLOTS
  {
    cnt, first, found := 0, false, None;
    var k := 0;
    while k < SLOTS
      invariant k <= SLOTS && cnt == Count(buf[..k]) && first == HasDot(buf[..k])
      invariant found.None? ==> forall j :: 0 <= j < k ==> !IsVictim(buf[j], ino)
      invariant found.Some? ==> found.value < k && IsVictim(buf[found.value], ino)
    {
      CountSnoc(buf, k);
      if buf[k].ftype != 0 {
        if buf[k].name == "." {
          first := true;
        } else if buf[k].name != "." && buf[k].name != ".." {
          cnt := cnt + 1;
          if buf[k].ino == ino {
            assert found.None? by {
              if found.Some? {
                OneSlot(rows, i, found.value, i, k);
              }
            }
            found := Some(k);
          }
        }
      }
      k := k + 1;
    }
    assert buf[..SLOTS] == buf;
    if found.Some? {
      var j := Victim(buf, ino);
      OneSlot(rows, i, found.value, i, j);
    }
  }

  method DeleteDirEntry(part: Partition, dir: Dir, ino: nat, ghost others: set<nat>) returns (r: DeleteResult)
    requires Inv(dir.Node(), part.Vol(), others)
    modifies part, dir`size, dir.sectors
    ensures Deleted(r, dir.Node(), part.Vol()) == old(Delete(dir.Node(), part.Vol(), ino))
  {
    ghost var n, v := dir.Node(), part.Vol();
    ghost var rows := Rows(n, v.disk);
    var blocks := GatherBlocks(part, dir, true);
    var i := 0;
    while i < BLOCKS
      invariant i <= BLOCKS && dir.Node() == n && part.Vol() == v
      invariant FindBlock(rows, ino, 0) == FindBlock(rows, ino, i)
    {
      if blocks[i] != 0 {
        var buf := part.disk[blocks[i]].slots;
        var cnt, first, found := ScanBlock(buf, ino, rows, i);
        if found.Some? {
          assert FindBlock(rows, ino, 0) == i;
          r := RemoveFound(part, dir, i, blocks[i], buf, found.value, cnt == 1 && !first, n, v);
          return;
        }
      }
      i := i + 1;
    }
    return NotFound;
  }

  /** The entry is in slot `k` of block `i`: give the block back or clear the slot. */
  method RemoveFound(part: Partition, dir: Dir, i: nat, b: nat, buf: seq<DirEntry>, k: nat, free: bool,
                     ghost n: Inode, ghost v: Volume) returns (r: DeleteResult)
    requires Readable(n, v.disk) && dir.Node() == n && part.Vol() == v
    requires i < BLOCKS && b == Blocks(n, v.disk)[i] && buf == Rows(n, v.disk)[i] && k < |buf| && n.size >= ENTRY_SIZE
    modifies part, dir`size, dir.sectors
    ensures Deleted(r, dir.Node(), part.Vol()) == if free then FreeBlock(n, v, i) else ClearSlot(n, v, i, k)
  {
    if free {
      part.BitmapClear(b);
      part.BitmapSync(b);
      if i >= DIRECT {
        return Hangs;
      }
      dir.sectors[i] := 0;
      assert dir.sectors[..] == n.sectors[i := 0];
    } else {
      part.IdeWrite(b, Slots(buf[k := ZERO]));
    }
    dir.size := dir.size - ENTRY_SIZE;
    return Removed;
  }

  /** The loop that counts the table's blocks, one round of it: the index is never advanced. */
  function CountRound(blocks: seq<nat>, s: (nat, nat)): (nat, nat)
    requires |blocks| == BLOCKS && s.0 < BLOCKS
  {
    (s.0, if blocks[s.0] != 0 then s.1 + 1 else s.1)
  }

  function CountRounds(blocks: seq<nat>, rounds: nat): (s: (nat, nat))
    requires |blocks| == BLOCKS
    ensures s.0 == DIRECT
  {
    if rounds == 0 then (DIRECT, 0) else CountRound(blocks, CountRounds(blocks, rounds - 1))
  }

  /** After any number of rounds the loop condition still holds: Hangs is the right verdict. */
  lemma {:induction false} CountLoopNeverEnds(blocks: seq<nat>, rounds: nat)
    requires |blocks| == BLOCKS
    ensures CountRounds(blocks, rounds).0 < BLOCKS
    ensures CountRounds(blocks, rounds).1 == if blocks[DIRECT] != 0 then rounds else 0
  {
    if rounds > 0 {
      CountLoopNeverEnds(blocks, rounds - 1);
    }
  }

  // -------------------------------------------------------------------- dir_read

  lemma BeforeNext(rows: seq<seq<DirEntry>>, i: nat, k: nat)
    requires i < |rows| && k < |rows[i]|
    ensures |Before(rows, i, k + 1)| == |Before(rows, i, k)| + if IsLive(rows[i][k]) then 1 else 0
    ensures IsLive(rows[i][k]) ==> |Before(rows, i, k)| < |Listing(rows)| && Listing(rows)[|Before(rows, i, k)|] == rows[i][k]
  {
    SlotInListing(rows, i, k);
    LiveAround(rows[i][..k + 1], k);
    assert rows[i][..k + 1][..k] == rows[i][..k];
  }

  lemma BeforeRow(rows: seq<seq<DirEntry>>, i: nat)
    requires i < |rows|
    ensures Before(rows, i, 0) == Listing(rows[..i])
    ensures Before(rows, i, |rows[i]|) == Listing(rows[..i + 1])
  {
    assert rows[..i + 1] == rows[..i] + [rows[i]];
    ListingConcat(rows[..i], [rows[i]]);
    assert Listing([rows[i]]) == Live(rows[i]) by { assert Live(rows[i]) + [] == Live(rows[i]); }
    assert rows[i][..|rows[i]|] == rows[i];
  }

  /** One sector's worth of dir_read: skip the live entries before `pos`, return the one at it. */
  method ReadBlock(buf: seq<DirEntry>, start: nat, pos: nat, ghost rows: seq<seq<DirEntry>>, ghost i: nat)
    returns (hit: Option<DirEntry>, cur: nat)
    requires i < |rows| && buf == rows[i] && |buf| == SLOTS && pos % ENTRY_SIZE == 0
    requires start == ENTRY_SIZE * |Listing(rows[..i])| && start <= pos
    ensures hit.Some? ==> pos / ENTRY_SIZE < |Listing(rows)| && hit.value == Listing(rows)[pos / ENTRY_SIZE]
    ensures hit.None? ==> cur == ENTRY_SIZE * |Listing(rows[..i + 1])| && cur <= pos
  {
    cur := start;
    BeforeRow(rows, i);
    var k := 0;
    while k < SLOTS
      invariant k <= SLOTS && cur == ENTRY_SIZE * |Before(rows, i, k)| && cur <= pos
    {
      BeforeNext(rows, i, k);
      if buf[k].ftype != 0 {
        if cur < pos {
          cur := cur + ENTRY_SIZE;
        } else {
          assert cur == pos;
          return Some(buf[k]), cur;
        }
      }
      k := k + 1;
    }
    hit := None;
  }

  /** One call returns the entry at the read position, in block and slot order, and moves on;
      at the end it returns NULL and stays. The assertion on the position never fails. */
  method DirRead(part: Partition, dir: Dir, ghost others: set<nat>) returns (r: Option<DirEntry>)
    requires Inv(dir.Node(), part.Vol(), others) && dir.pos % ENTRY_SIZE == 0
    modifies dir`pos
    ensures var l, p := List(dir.Node(), part.disk), old(dir.pos) / ENTRY_SIZE;
            if p < |l| then r == Some(l[p]) && dir.pos == old(dir.pos) + ENTRY_SIZE
            else r == None && dir.pos == old(dir.pos)
  {
    ghost var rows := Rows(dir.Node(), part.disk);
    ghost var l := Listing(rows);
    var blocks := GatherBlocks(part, dir, true);
    var count := if dir.sectors[DIRECT] != 0 then BLOCKS else DIRECT;
    var cur := 0;
    var i := 0;
    while i < count
      invariant i <= count && dir.pos == old(dir.pos)
      invariant cur == ENTRY_SIZE * |Listing(rows[..i])| && cur <= dir.pos
    {
      if dir.pos >= dir.size {
        return None;
      }
      BeforeRow(rows, i);
      if blocks[i] != 0 {
        var hit;
        hit, cur := ReadBlock(part.disk[blocks[i]].slots, cur, dir.pos, rows, i);
        if hit.Some? {
          dir.pos := dir.pos + ENTRY_SIZE;
          return hit;
        }
      }
      i := i + 1;
    }
    RestEmpty(dir.Node(), part.disk, count);
    return None;
  }

  lemma RestEmpty(n: Inode, d: Disk, count: nat)
    requires Readable(n, d) && count == if n.sectors[DIRECT] != 0 then BLOCKS else DIRECT
    ensures Listing(Rows(n, d)[..count]) == List(n, d)
  {
    var rows := Rows(n, d);
    assert rows == rows[..count] + rows[count..];
    ListingConcat(rows[..count], rows[count..]);
    if n.sectors[DIRECT] == 0 {
      assert forall i :: DIRECT <= i < BLOCKS ==> Blocks(n, d)[i] == 0;
      NothingListed(rows[count..]);
    }
  }

  /** A whole traversal from position 0: the listing, each entry once, then NULL. */
  method ReadAll(part: Partition, dir: Dir, ghost others: set<nat>) returns (es: seq<DirEntry>)
    requires Inv(dir.Node(), part.Vol(), others) && dir.pos == 0
    modifies dir`pos
    ensures es == List(dir.Node(), part.disk) && dir.pos == dir.size
  {
    ghost var l := List(dir.Node(), part.disk);
    es := [];
    while true
      invariant |es| <= |l| && es == l[..|es|] && dir.pos == ENTRY_SIZE * |es|
      decreases |l| - |es|
    {
      var e := DirRead(part, dir, others);
      if e.None? {
        return;
      }
      es := es + [e.value];
    }
  }

  // ---------------------------------------------------- dir_is_empty, dir_remove

  method DirIsEmpty(part: Partition, dir: Dir, ghost others: set<nat>) returns (r: bool)
    requires Inv(dir.Node(), part.Vol(), others)
    ensures r <==> MapOf(dir.Node(), part.Vol()).Keys == {".", ".."}
  {
    EmptyExactly(dir.Node(), part.Vol(), others);
    return dir.size == 2 * ENTRY_SIZE;
  }

  lemma NonZeroSnoc(bs: seq<nat>, i: nat)
    requires i < |bs|
    ensures NonZero(bs[..i + 1]) == NonZero(bs[..i]) + if bs[i] != 0 then {bs[i]} else {}
  {
    assert bs[..i + 1] == bs[..i] + [bs[i]];
  }

  /** inode_release: every block of the inode goes back to the bitmap, the table included. */
  method InodeRelease(part: Partition, dir: Dir)
    requires Readable(dir.Node(), part.disk) && forall b :: b in Owned(dir.Node(), part.disk) ==> b > part.start
    modifies part`used, part`synced
    ensures part.used == old(part.used) - Owned(dir.Node(), part.disk)
    ensures old(part.synced == part.used) ==> part.synced == part.used
  {
    ghost var n, d := dir.Node(), part.disk;
    var blocks := GatherBlocks(part, dir, true);
    var count := DIRECT;
    ghost var table := {};
    if dir.sectors[DIRECT] != 0 {
      count := BLOCKS;
      table := {dir.sectors[DIRECT]};
      assert dir.sectors[DIRECT] in Owned(n, d);
      ClearSynced(part, dir.sectors[DIRECT]);
    }
    var i := 0;
    while i < count
      invariant i <= count && part.used == old(part.used) - table - NonZero(blocks[..i])
      invariant old(part.synced == part.used) ==> part.synced == part.used
    {
      NonZeroSnoc(blocks, i);
      if blocks[i] != 0 {
        assert blocks[i] in Owned(n, d);
        ClearSynced(part, blocks[i]);
      }
      i := i + 1;
    }
    assert blocks[..BLOCKS] == blocks;
    assert NonZero(blocks[..count]) == NonZero(blocks);
  }

  method ClearSynced(part: Partition, b: nat)
    requires b > part.start
    modifies part`used, part`synced
    ensures part.used == old(part.used) - {b}
    ensures old(part.synced == part.used) ==> part.synced == part.used
  {
    part.BitmapClear(b);
    if part.synced == part.used + {b} || part.synced == part.used {
      SyncBitmapExact(part.Vol(), b);
    }
    part.BitmapSync(b);
  }

  /** dir_remove on an empty child: no assertion fails, the child's block goes back, and the parent
      is a valid directory without the child's entry, unless the deletion in the parent hangs. */
  method DirRemove(part: Partition, parent: Dir, child: Dir, ino: nat, ghost rest: set<nat>) returns (r: DeleteResult)
    requires parent != child && parent.sectors != child.sectors
    requires Readable(child.Node(), part.disk) && Readable(parent.Node(), part.disk)
    requires Inv(parent.Node(), part.Vol(), rest + Owned(child.Node(), part.disk))
    requires Inv(child.Node(), part.Vol(), rest + Owned(parent.Node(), part.disk))
    requires rest !! Owned(child.Node(), part.disk) && part.start !in Owned(child.Node(), part.disk)
    requires child.size == 2 * ENTRY_SIZE
    modifies part, parent`size, parent.sectors
    ensures var d := old(Delete(parent.Node(), part.Vol(), ino));
            r == d.result && parent.Node() == d.node && part.disk == d.vol.disk
    ensures SameOn(old(part.disk), part.disk, rest)
    ensures r == Hangs <==> old(SoleIndirect(Rows(parent.Node(), part.disk), ino))
    ensures r != Hangs ==>
              Inv(parent.Node(), part.Vol(), rest) &&
              Unbound(old(MapOf(parent.Node(), part.Vol())), MapOf(parent.Node(), part.Vol()), ino)
    ensures r == Removed ==> Dropped(old(List(parent.Node(), part.disk)), List(parent.Node(), part.disk), ino)
    ensures r != Hangs && old(part.synced == part.used) ==> part.synced == part.used
  {
    CheckEmpty(part, child, rest + Owned(parent.Node(), part.disk));
    r := RemoveChild(part, parent, child, ino, rest);
  }

  method RemoveChild(part: Partition, parent: Dir, child: Dir, ino: nat, ghost rest: set<nat>) returns (r: DeleteResult)
    requires parent != child && parent.sectors != child.sectors && Readable(child.Node(), part.disk)
    requires Inv(parent.Node(), part.Vol(), rest + Owned(child.Node(), part.disk))
    requires rest !! Owned(child.Node(), part.disk) && part.start !in Owned(child.Node(), part.disk)
    modifies part, parent`size, parent.sectors
    ensures var d := old(Delete(parent.Node(), part.Vol(), ino));
            r == d.result && parent.Node() == d.node && part.disk == d.vol.disk
    ensures SameOn(old(part.disk), part.disk, rest)
    ensures r == Hangs <==> old(SoleIndirect(Rows(parent.Node(), part.disk), ino))
    ensures r != Hangs ==>
              Inv(parent.Node(), part.Vol(), rest) &&
              Unbound(old(MapOf(parent.Node(), part.Vol())), MapOf(parent.Node(), part.Vol()), ino)
    ensures r == Removed ==> Dropped(old(List(parent.Node(), part.disk)), List(parent.Node(), part.disk), ino)
    ensures r != Hangs && old(part.synced == part.used) ==> part.synced == part.used
  {
    ghost var n, v := parent.Node(), part.Vol();
    ghost var own := Owned(child.Node(), v.disk);
    AboveStart(n, v, rest + own, own);
    DeleteLeaves(n, v, child.Node(), rest + own, ino);
    ParentAfter(n, v, rest, own, ino);
    ghost var d := Delete(n, v, ino);
    r := DeleteDirEntry(part, parent, ino, rest + own);
    if r == Hangs {
      return;
    }
    InodeRelease(part, child);
    ReleasedInv(d.node, d.vol, part.Vol(), rest, own);
  }

  /** `m'` is `m` without the binding of that inode. */
  ghost predicate Unbound(m: map<string, DirEntry>, m': map<string, DirEntry>, ino: nat) {
    m' == map s | s in m && !Binds(m, s, ino) :: m[s]
  }

  /** What the deletion in the parent comes to, for the parent and for everyone else's blocks. */
  lemma ParentAfter(n: Inode, v: Volume, rest: set<nat>, own: set<nat>, ino: nat)
    requires Inv(n, v, rest + own)
    ensures var d := Delete(n, v, ino);
            SameOn(v.disk, d.vol.disk, rest) && (d.result == Hangs <==> SoleIndirect(Rows(n, v.disk), ino)) &&
            (d.result != Hangs ==> Inv(d.node, d.vol, rest + own) && Unbound(MapOf(n, v), MapOf(d.node, d.vol), ino)) &&
            (d.result == Removed ==> Dropped(List(n, v.disk), List(d.node, d.vol.disk), ino)) &&
            (v.synced == v.used ==> d.vol.synced == d.vol.used)
  {
    DeleteTouchesOwn(n, v, rest + own, ino);
    DeleteKeepsInv(n, v, rest + own, ino);
    if !SoleIndirect(Rows(n, v.disk), ino) {
      DeleteIsMapRemove(n, v, rest + own, ino);
    }
    if v.synced == v.used {
      DeleteSyncsBitmap(n, v, rest + own, ino);
    }
  }

  /** The assertions of dir_remove: an empty directory has no block but its first. */
  method CheckEmpty(part: Partition, child: Dir, ghost others: set<nat>)
    requires Inv(child.Node(), part.Vol(), others) && child.size == 2 * ENTRY_SIZE
    ensures Owned(child.Node(), part.disk) == {child.sectors[0]}
  {
    EmptyExactly(child.Node(), part.Vol(), others);
    var i := 1;
    while i < DIRECT + 1
      invariant 1 <= i <= DIRECT + 1
    {
      assert child.sectors[i] == 0;
      i := i + 1;
    }
  }

  /** The parent's deletion leaves a directory with other blocks readable, with the same blocks. */
  lemma DeleteLeaves(n: Inode, v: Volume, c: Inode, others: set<nat>, ino: nat)
    requires Readable(n, v.disk) && others !! Owned(n, v.disk) && Readable(c, v.disk) && Owned(c, v.disk) <= others
    ensures var d := Delete(n, v, ino).vol.disk; Readable(c, d) && Owned(c, d) == Owned(c, v.disk)
  {
    DeleteTouchesOwn(n, v, others, ino);
    SameRows(c, v.disk, Delete(n, v, ino).vol.disk);
  }

  lemma AboveStart(n: Inode, v: Volume, others: set<nat>, own: set<nat>)
    requires Inv(n, v, others) && own <= others && v.start !in own
    ensures forall b :: b in own ==> b > v.start
  {
  }

  lemma ReleasedInv(n: Inode, v: Volume, w: Volume, rest: set<nat>, own: set<nat>)
    requires Inv(n, v, rest + own) && rest !! own
    requires w.start == v.start && w.bits == v.bits && w.disk == v.disk && w.used == v.used - own
    ensures Inv(n, w, rest)
  {
  }
}
