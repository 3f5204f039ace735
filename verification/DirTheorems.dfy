/**
 What the directory store promises its callers: look-up in a finite map, insertion undone by
 deletion, emptiness, and exactly where sync_dir_entry loses entries or leaves the bitmap on
 disk behind.
 */
module DirTheorems {
  import opened Common
  import opened DirStore
  import opened DirListing
  import opened DirInvariant

  // --------------------------------------------------------------- finite map

  lemma InsertedMembers(l: seq<DirEntry>, l': seq<DirEntry>, e: DirEntry)
    requires Inserted(l, l', e)
    ensures forall x :: x in l' <==> x in l || x == e
  {
    var p :| 2 <= p <= |l| && l' == l[..p] + [e] + l[p..];
    assert l == l[..p] + l[p..];
  }

  lemma InsertedMap(l: seq<DirEntry>, l': seq<DirEntry>, e: DirEntry)
    requires GoodList(l) && GoodList(l') && Inserted(l, l', e)
    ensures ToMap(l') == ToMap(l)[e.name := e]
  {
    InsertedMembers(l, l', e);
    ToMapExact(l);
    ToMapExact(l');
    MapInserted(l, ToMap(l), l', ToMap(l'), e);
  }

  lemma MapInserted(l: seq<DirEntry>, m: map<string, DirEntry>, l': seq<DirEntry>, m': map<string, DirEntry>, e: DirEntry)
    requires IsMapOf(m, l) && IsMapOf(m', l') && forall x :: x in l' <==> x in l || x == e
    ensures m' == m[e.name := e]
  {
    assert e in l';
    assert forall s :: s in m && s != e.name ==> m[s] in l' && s in m';
    assert forall s :: s in m' && s != e.name ==> m'[s] in l && s in m;
  }

  lemma MembersWithout(l: seq<DirEntry>, p: nat)
    requires p < |l| && forall i :: 0 <= i < |l| && i != p ==> l[i] != l[p]
    ensures forall y :: y in l[..p] + l[p + 1..] <==> y in l && y != l[p]
  {
    assert l == l[..p] + [l[p]] + l[p + 1..];
    assert l[p] !in l[..p] && l[p] !in l[p + 1..];
  }

  lemma DroppedMembers(l: seq<DirEntry>, l': seq<DirEntry>, ino: nat) returns (p: nat)
    requires GoodList(l) && Dropped(l, l', ino)
    ensures 2 <= p < |l| && l[p].ino == ino
    ensures forall y :: y in l' <==> y in l && y != l[p]
  {
    p :| 2 <= p < |l| && l[p].ino == ino && l' == l[..p] + l[p + 1..];
    MembersWithout(l, p);
  }

  lemma DroppedMap(l: seq<DirEntry>, l': seq<DirEntry>, ino: nat) returns (p: nat)
    requires GoodList(l) && GoodList(l') && Dropped(l, l', ino)
    ensures 2 <= p < |l| && l[p].ino == ino && ToMap(l') == ToMap(l) - {l[p].name}
  {
    p := DroppedMembers(l, l', ino);
    ToMapExact(l);
    ToMapExact(l');
    MapDropped(l, ToMap(l), l', ToMap(l'), l[p]);
  }

  lemma MapDropped(l: seq<DirEntry>, m: map<string, DirEntry>, l': seq<DirEntry>, m': map<string, DirEntry>, x: DirEntry)
    requires IsMapOf(m, l) && IsMapOf(m', l') && x in l && forall y :: y in l' <==> y in l && y != x
    ensures m' == m - {x.name}
  {
    assert forall s :: s in m' ==> m'[s] in l && s in m && s != x.name;
    assert forall s :: s in m && s != x.name ==> m[s] in l' && s in m';
  }

  /** search_dir_entry answers from the finite map: the scan over raw slots equals map look-up. */
  lemma SearchIsLookup(n: Inode, v: Volume, others: set<nat>, name: string)
    requires Inv(n, v, others) && name != ""
    ensures var m := ToMap(List(n, v.disk));
            Find(AllSlots(Rows(n, v.disk)), name) == if name in m then Some(m[name]) else None
  {
    FindInRows(Rows(n, v.disk), name);
    ToMapExact(List(n, v.disk));
    FindIsMapLookup(List(n, v.disk), ToMap(List(n, v.disk)), name);
  }

  ghost function MapOf(n: Inode, v: Volume): map<string, DirEntry>
    requires Readable(n, v.disk)
  {
    ToMap(List(n, v.disk))
  }

  /** An in-scope insertion adds one binding if it succeeds and none if it fails. */
  lemma SyncIsMapInsert(n: Inode, v: Volume, others: set<nat>, e: DirEntry)
    requires Inv(n, v, others) && Fresh(e, List(n, v.disk)) && InScope(n, v)
    ensures var s := Sync(n, v, e);
            Readable(s.node, s.vol.disk) &&
            MapOf(s.node, s.vol) == if s.result.Stored? then MapOf(n, v)[e.name := e] else MapOf(n, v)
  {
    SyncKeepsInv(n, v, others, e);
    var s := Sync(n, v, e);
    if s.result.Stored? {
      InsertedMap(List(n, v.disk), List(s.node, s.vol.disk), e);
    }
  }

  /** The binding a deletion takes away: the one ordinary entry of that inode. */
  ghost predicate Binds(m: map<string, DirEntry>, name: string, ino: nat) {
    name in m && m[name].ino == ino && name != "." && name != ".."
  }

  /** A deletion that returns removes exactly the binding of that inode, or nothing if there is none. */
  lemma DeleteIsMapRemove(n: Inode, v: Volume, others: set<nat>, ino: nat)
    requires Inv(n, v, others) && !SoleIndirect(Rows(n, v.disk), ino)
    ensures var d := Delete(n, v, ino);
            Readable(d.node, d.vol.disk) &&
            MapOf(d.node, d.vol) == map s | s in MapOf(n, v) && !Binds(MapOf(n, v), s, ino) :: MapOf(n, v)[s]
  {
    DeleteKeepsInv(n, v, others, ino);
    var l := List(n, v.disk);
    var d := Delete(n, v, ino);
    if d.result == Removed {
      DroppedUnbinds(l, List(d.node, d.vol.disk), ino);
    } else {
      ToMapExact(l);
      NoBinding(l, ToMap(l), ino);
    }
  }

  lemma DroppedUnbinds(l: seq<DirEntry>, l': seq<DirEntry>, ino: nat)
    requires GoodList(l) && GoodList(l') && Dropped(l, l', ino)
    ensures ToMap(l') == map s | s in ToMap(l) && !Binds(ToMap(l), s, ino) :: ToMap(l)[s]
  {
    var p := DroppedMap(l, l', ino);
    ToMapExact(l);
    OnlyBinding(l, ToMap(l), p, ino);
  }

  lemma OnlyBinding(l: seq<DirEntry>, m: map<string, DirEntry>, p: nat, ino: nat)
    requires GoodList(l) && IsMapOf(m, l) && 2 <= p < |l| && l[p].ino == ino
    ensures forall s :: Binds(m, s, ino) <==> s == l[p].name
  {
    assert l[p] in l;
    assert l[0].name != l[p].name && l[1].name != l[p].name;
    forall s | Binds(m, s, ino)
      ensures s == l[p].name
    {
      var q :| 0 <= q < |l| && l[q] == m[s];
    }
  }

  lemma NoBinding(l: seq<DirEntry>, m: map<string, DirEntry>, ino: nat)
    requires GoodList(l) && IsMapOf(m, l) && !Listed(l, ino)
    ensures forall s :: !Binds(m, s, ino)
  {
    forall s
      ensures !Binds(m, s, ino)
    {
      if s in m {
        var q :| 0 <= q < |l| && l[q] == m[s];
      }
    }
  }

  // --------------------------------------------------- insertion and deletion

  /** Two disks hold the same in the sectors `s`. */
  ghost predicate SameOn(d: Disk, d': Disk, s: set<nat>) {
    forall b :: b in s ==> (b in d <==> b in d') && (b in d ==> d[b] == d'[b])
  }

  /** The deletion returned and put back the inode, the bitmap and every sector in use. */
  ghost predicate Restores(d: Deleted, n: Inode, v: Volume) {
    d.result == Removed && d.node == n && d.vol.used == v.used && SameOn(v.disk, d.vol.disk, v.used)
  }

  /** Deleting a freshly inserted entry that landed in a direct block restores the inode, the
      bitmap and every sector the directory can reach, whether a hole was filled or a block taken. */
  lemma SyncThenDelete(n: Inode, v: Volume, others: set<nat>, e: DirEntry)
    requires Inv(n, v, others) && Fresh(e, List(n, v.disk)) && !IsDot(e)
    requires var s := Sync(n, v, e); s.result.Stored? && s.result.block < DIRECT
    ensures var s := Sync(n, v, e);
            Readable(s.node, s.vol.disk) && Restores(Delete(s.node, s.vol, e.ino), n, v)
  {
    var i := StoredDirect(n, v, e);
    if n.sectors[i] != 0 {
      HoleThenDelete(n, v, others, e, i);
    } else {
      BlockThenDelete(n, v, others, e, i);
    }
  }

  /** Which branch stored the entry. */
  lemma StoredDirect(n: Inode, v: Volume, e: DirEntry) returns (i: nat)
    requires Readable(n, v.disk)
    requires var s := Sync(n, v, e); s.result.Stored? && s.result.block < DIRECT
    ensures i < DIRECT
    ensures n.sectors[i] != 0 ==> FirstHole(Rows(n, v.disk)[i]) < SLOTS && Sync(n, v, e) == SyncIntoHole(n, v, e, i)
    ensures n.sectors[i] == 0 ==> Alloc(v).Some? && Sync(n, v, e) == SyncNewBlock(n, v, e, i)
  {
    i := FirstRoom(Rows(n, v.disk), 0);
    if i < DIRECT && n.sectors[i] != 0 {
      assert Blocks(n, v.disk)[i] == n.sectors[i];
      assert |Rows(n, v.disk)[i]| == SLOTS;
    }
  }

  lemma HoleVictim(rows: seq<seq<DirEntry>>, i: nat, k: nat, e: DirEntry)
    requires Tidy(rows) && GoodList(Listing(rows)) && Fresh(e, Listing(rows)) && !IsDot(e)
    requires i < BLOCKS && k < |rows[i]| && !IsLive(rows[i][k])
    ensures var rows' := rows[i := rows[i][k := e]];
            FindBlock(rows', e.ino, 0) == i && Victim(rows'[i], e.ino) == k && !FreesBlock(rows'[i])
  {
    var rows' := rows[i := rows[i][k := e]];
    HoleInListing(rows, i, k, e);
    HoleTidy(rows, i, k, e);
    VictimPlace(rows', i, k, e.ino);
    FreesBlockIff(rows', i);
    LiveAround(rows[i], k);
    SlotReplaced(rows[i], k, e);
  }

  lemma HoleThenDelete(n: Inode, v: Volume, others: set<nat>, e: DirEntry, i: nat)
    requires Inv(n, v, others) && Fresh(e, List(n, v.disk)) && !IsDot(e)
    requires i < DIRECT && n.sectors[i] != 0 && FirstHole(Rows(n, v.disk)[i]) < SLOTS
    ensures var s := SyncIntoHole(n, v, e, i);
            Readable(s.node, s.vol.disk) && Restores(Delete(s.node, s.vol, e.ino), n, v)
  {
    var s := SyncIntoHole(n, v, e, i);
    var rows := Rows(n, v.disk);
    var k := FirstHole(rows[i]);
    RowsAfterWrite(n, s.node, v.disk, i, rows[i][k := e]);
    HoleVictim(rows, i, k, e);
    assert Delete(s.node, s.vol, e.ino) == ClearSlot(s.node, s.vol, i, k);
    ClearedAgain(n, v, e, i, k);
  }

  lemma ClearedAgain(n: Inode, v: Volume, e: DirEntry, i: nat, k: nat)
    requires Readable(n, v.disk) && i < DIRECT && n.sectors[i] != 0
    requires k == FirstHole(Rows(n, v.disk)[i]) < SLOTS && Rows(n, v.disk)[i][k] == ZERO
    requires var s := SyncIntoHole(n, v, e, i);
             Readable(s.node, s.vol.disk) && Blocks(s.node, s.vol.disk)[i] == n.sectors[i] &&
             Rows(s.node, s.vol.disk)[i] == Rows(n, v.disk)[i][k := e]
    ensures var s := SyncIntoHole(n, v, e, i); Restores(ClearSlot(s.node, s.vol, i, k), n, v)
  {
    var row := Rows(n, v.disk)[i];
    assert Blocks(n, v.disk)[i] == n.sectors[i];
    assert row[k := e][k := ZERO] == row;
    assert v.disk[n.sectors[i] := Slots(row[k := e])][n.sectors[i] := Slots(row)] == v.disk;
  }

  lemma NewRowVictim(rows: seq<seq<DirEntry>>, i: nat, e: DirEntry)
    requires Tidy(rows) && GoodList(Listing(rows)) && Fresh(e, Listing(rows)) && !IsDot(e)
    requires 0 < i < BLOCKS && rows[i] == []
    ensures var rows' := rows[i := NewRow(e)];
            FindBlock(rows', e.ino, 0) == i && Victim(rows'[i], e.ino) == 0 && FreesBlock(rows'[i])
  {
    var rows' := rows[i := NewRow(e)];
    NewRowInListing(rows, i, e);
    VictimPlace(rows', i, 0, e.ino);
    NewRowLive(e);
    FreesBlockIff(rows', i);
  }

  lemma BlockThenDelete(n: Inode, v: Volume, others: set<nat>, e: DirEntry, i: nat)
    requires Inv(n, v, others) && Fresh(e, List(n, v.disk)) && !IsDot(e)
    requires i < DIRECT && n.sectors[i] == 0 && Alloc(v).Some?
    ensures var s := SyncNewBlock(n, v, e, i);
            Readable(s.node, s.vol.disk) && Restores(Delete(s.node, s.vol, e.ino), n, v)
  {
    var s := SyncNewBlock(n, v, e, i);
    var b := Alloc(v).value;
    AllocFacts(v, n, others, b);
    RowsAfterGrow(n, s.node, v.disk, i, b, NewRow(e));
    var rows := Rows(n, v.disk);
    NewRowVictim(rows, i, e);
    assert Delete(s.node, s.vol, e.ino) == FreeBlock(s.node, s.vol, i);
    FreedAgain(n, v, e, i, b);
  }

  lemma FreedAgain(n: Inode, v: Volume, e: DirEntry, i: nat, b: nat)
    requires |n.sectors| == DIRECT + 1 && i < DIRECT && n.sectors[i] == 0 && Alloc(v) == Some(b) && b !in v.used
    requires var s := SyncNewBlock(n, v, e, i); Readable(s.node, s.vol.disk)
    ensures var s := SyncNewBlock(n, v, e, i); Restores(FreeBlock(s.node, s.vol, i), n, v)
  {
    assert n.sectors[i := b][i := 0] == n.sectors;
    assert v.used + {b} - {b} == v.used;
  }

  /** An insertion that had to start an indirect table cannot be undone: the deletion never returns. */
  lemma SyncIndirectThenDeleteHangs(n: Inode, v: Volume, others: set<nat>, e: DirEntry)
    requires Inv(n, v, others) && Fresh(e, List(n, v.disk)) && !IsDot(e) && InScope(n, v)
    requires Sync(n, v, e).result == Stored(DIRECT)
    ensures var s := Sync(n, v, e);
            Readable(s.node, s.vol.disk) &&
            Delete(s.node, s.vol, e.ino).result == Hangs
  {
    var s := Sync(n, v, e);
    FirstIndirect(n, v, others, e);
    SyncKeepsInv(n, v, others, e);
    DeleteKeepsInv(s.node, s.vol, others, e.ino);
  }

  /** The new entry is alone in the first indirect block. */
  lemma FirstIndirect(n: Inode, v: Volume, others: set<nat>, e: DirEntry)
    requires Inv(n, v, others) && IsLive(e) && !IsDot(e) && InScope(n, v) && Sync(n, v, e).result == Stored(DIRECT)
    ensures var s := Sync(n, v, e); Readable(s.node, s.vol.disk) && SoleIndirect(Rows(s.node, s.vol.disk), e.ino)
  {
    var s := Sync(n, v, e);
    var t := Alloc(v).value;
    AllocFacts(v, n, others, t);
    var b := Alloc(SyncBitmap(Take(v, t), t)).value;
    RowsAfterTable(n, s.node, v.disk, t, b, NewRow(e));
    NewRowLive(e);
    var rows' := Rows(s.node, s.vol.disk);
    assert rows'[DIRECT] == NewRow(e) && IsVictim(rows'[DIRECT][0], e.ino);
  }

  // ---------------------------------------------------------------- emptiness

  /** dir_is_empty: the size test holds exactly for a directory of only "." and "..", and such a
      directory has block 0 and nothing else, as dir_remove asserts. */
  lemma EmptyExactly(n: Inode, v: Volume, others: set<nat>)
    requires Inv(n, v, others)
    ensures n.size == 2 * ENTRY_SIZE <==> MapOf(n, v).Keys == {".", ".."}
    ensures n.size == 2 * ENTRY_SIZE ==>
              Owned(n, v.disk) == {n.sectors[0]} && forall i :: 1 <= i <= DIRECT ==> n.sectors[i] == 0
  {
    var l := List(n, v.disk);
    ToMapExact(l);
    if |l| == 2 {
      assert l == [l[0], l[1]];
      OnlyBlockZero(n, v, others);
    } else {
      assert l[2] in l && l[2].name != l[0].name && l[2].name != l[1].name;
    }
    assert l[0] in l && l[1] in l;
  }

  lemma ThirdEntry(rows: seq<seq<DirEntry>>, i: nat)
    requires Tidy(rows) && 0 < i < BLOCKS && rows[i] != []
    ensures |Listing(rows)| > 2
  {
    DotsFirst(rows, i, 0);
    ListingAround(rows, i);
    assert Before(rows, i, 0) == Listing(rows[..i]);
  }

  lemma OnlyBlockZero(n: Inode, v: Volume, others: set<nat>)
    requires Inv(n, v, others) && |List(n, v.disk)| == 2
    ensures forall i :: 1 <= i < BLOCKS ==> Blocks(n, v.disk)[i] == 0
    ensures Owned(n, v.disk) == {n.sectors[0]} && forall i :: 1 <= i <= DIRECT ==> n.sectors[i] == 0
  {
    var rows, bs := Rows(n, v.disk), Blocks(n, v.disk);
    forall i | 1 <= i < BLOCKS
      ensures bs[i] == 0
    {
      if rows[i] != [] {
        ThirdEntry(rows, i);
      }
    }
    assert bs[0] == n.sectors[0] && bs[0] in bs;
    forall i | 1 <= i < DIRECT
      ensures n.sectors[i] == 0
    {
      assert bs[i] == n.sectors[i];
    }
  }

  // -------------------------------------------------------------- out of scope

  /** All direct blocks are full and a table exists: the call replaces the table, so the listing
      keeps only the direct entries, whether the new entry is stored or not. */
  lemma OutOfScopeListing(n: Inode, v: Volume, others: set<nat>, e: DirEntry)
    requires Inv(n, v, others) && IsLive(e) && !InScope(n, v) && Alloc(v).Some?
    ensures var s := Sync(n, v, e);
            Readable(s.node, s.vol.disk) &&
            List(s.node, s.vol.disk) ==
              Listing(Rows(n, v.disk)[..DIRECT]) + (if s.result.Stored? then [e] else [])
  {
    var t := Alloc(v).value;
    AllocFacts(v, n, others, t);
    DirectOwned(n, v.disk);
    var v1 := SyncBitmap(Take(v, t), t);
    var s := SyncNewTable(n, v, e);
    if Alloc(v1).Some? {
      var b := Alloc(v1).value;
      assert s.vol.disk == v.disk[t := Table(NewTable(b))][b := Slots(NewRow(e))];
      assert TableOk(s.node, s.vol.disk) && Blocks(s.node, s.vol.disk)[DIRECT..] == NewTable(b);
      DirectOnly(n, s.node, v.disk, s.vol.disk, NewTable(b), NewRow(e));
      NewRowLive(e);
    } else {
      DirectOnly(n, s.node, v.disk, s.vol.disk, Zeros(BLOCKS - DIRECT), []);
    }
  }

  lemma DirectOwned(n: Inode, d: Disk)
    requires Readable(n, d)
    ensures forall i :: 0 <= i < DIRECT && n.sectors[i] != 0 ==> n.sectors[i] in d && n.sectors[i] in Owned(n, d)
  {
    forall i | 0 <= i < DIRECT && n.sectors[i] != 0
      ensures n.sectors[i] in d && n.sectors[i] in Owned(n, d)
    {
      assert Blocks(n, d)[i] == n.sectors[i];
    }
  }

  lemma DirectOnly(n: Inode, n': Inode, d: Disk, d': Disk, refs: seq<nat>, row: seq<DirEntry>)
    requires Readable(n, d) && TableOk(n', d') && n'.sectors[..DIRECT] == n.sectors[..DIRECT]
    requires forall i :: 0 <= i < DIRECT && n.sectors[i] != 0 ==>
               n.sectors[i] in d && n.sectors[i] in d' && d'[n.sectors[i]] == d[n.sectors[i]]
    requires Blocks(n', d')[DIRECT..] == refs && forall i :: 0 < i < |refs| ==> refs[i] == 0
    requires (refs[0] != 0 ==> IsSlots(d', refs[0])) && Row(d', refs[0]) == row
    ensures Readable(n', d') && List(n', d') == Listing(Rows(n, d)[..DIRECT]) + Live(row)
  {
    forall i | 0 <= i < DIRECT
      ensures Blocks(n', d')[i] == Blocks(n, d)[i] == n.sectors[i]
    {
      assert n'.sectors[..DIRECT][i] == n.sectors[..DIRECT][i];
    }
    forall i | DIRECT <= i < BLOCKS
      ensures Blocks(n', d')[i] == refs[i - DIRECT]
    {
      assert Blocks(n', d')[DIRECT..][i - DIRECT] == refs[i - DIRECT];
    }
    assert Readable(n', d');
    TailListing(Rows(n, d)[..DIRECT], Rows(n', d'));
  }

  lemma TailListing(head: seq<seq<DirEntry>>, rows: seq<seq<DirEntry>>)
    requires |head| < |rows| && (forall i :: 0 <= i < |head| ==> rows[i] == head[i])
    requires forall i :: |head| < i < |rows| ==> rows[i] == []
    ensures Listing(rows) == Listing(head) + Live(rows[|head|])
  {
    assert rows[..|head|] == head;
    ListingAround(rows, |head|);
    NothingListed(rows[|head| + 1..]);
  }

  lemma {:induction false} NothingListed(rows: seq<seq<DirEntry>>)
    requires forall i :: 0 <= i < |rows| ==> rows[i] == []
    ensures Listing(rows) == []
  {
    if rows != [] {
      NothingListed(rows[1..]);
    }
  }

  /** Exactly when no existing entry is lost: in scope, or when there was no block to take. */
  lemma SyncKeepsEntriesIff(n: Inode, v: Volume, others: set<nat>, e: DirEntry)
    requires Inv(n, v, others) && Fresh(e, List(n, v.disk))
    ensures var s := Sync(n, v, e);
            Readable(s.node, s.vol.disk) &&
            ((forall x :: x in List(n, v.disk) ==> x in List(s.node, s.vol.disk)) <==>
             n.sectors[DIRECT] == 0 || !FullUpTo(n, v.disk, DIRECT) || NoneFree(v))
  {
    var s := Sync(n, v, e);
    NeedsBlockIff(n, v.disk);
    if InScope(n, v) {
      SyncKeepsInv(n, v, others, e);
      if s.result.Stored? {
        InsertedMembers(List(n, v.disk), List(s.node, s.vol.disk), e);
      }
    } else if Alloc(v).Some? {
      OutOfScopeListing(n, v, others, e);
      var x := LostEntry(n, v, others);
      assert x in List(n, v.disk) && x != e;
    }
  }

  lemma LostEntry(n: Inode, v: Volume, others: set<nat>) returns (x: DirEntry)
    requires Inv(n, v, others) && n.sectors[DIRECT] != 0
    ensures x in List(n, v.disk) && x !in Listing(Rows(n, v.disk)[..DIRECT])
  {
    var rows := Rows(n, v.disk);
    var j :| DIRECT <= j < BLOCKS && Blocks(n, v.disk)[j] != 0;
    x := Live(rows[j])[0];
    LiveIsLive(rows[j]);
    assert x in Live(rows[j]);
    var m :| 0 <= m < |rows[j]| && rows[j][m] == x;
    SlotListed(rows, j, m);
    if x in Listing(rows[..DIRECT]) {
      var i, k := ListedSlot(rows[..DIRECT], x);
      OneSlot(rows, i, k, j, m);
    }
  }

  // ------------------------------------------------------- the bitmap on disk

  lemma SyncBitmapExact(v: Volume, b: nat)
    requires forall c :: c in v.synced + v.used && c != b ==> (c in v.synced <==> c in v.used)
    ensures SyncBitmap(v, b).synced == v.used
  {
  }

  /** Block i is there and every slot of it is live. */
  ghost predicate FullBlock(n: Inode, d: Disk, i: nat)
    requires Readable(n, d) && i < DIRECT
  {
    n.sectors[i] in d && d[n.sectors[i]].Slots? && n.sectors[i] != 0 && forall e :: e in d[n.sectors[i]].slots ==> IsLive(e)
  }

  ghost predicate FullUpTo(n: Inode, d: Disk, i: nat)
    requires Readable(n, d) && i <= DIRECT
  {
    forall j :: 0 <= j < i ==> FullBlock(n, d, j)
  }

  ghost predicate OnlyFree(v: Volume, b: nat) { IsFree(v, b) && forall c :: IsFree(v, c) ==> c == b }

  /** The one block left is taken for a table and given back without a second bitmap_sync. */
  ghost predicate TableThenFull(n: Inode, v: Volume)
    requires Readable(n, v.disk)
  {
    FullUpTo(n, v.disk, DIRECT) && exists b :: OnlyFree(v, b)
  }

  /** The scan for room in terms of blocks and slots. */
  lemma RoomExact(n: Inode, d: Disk)
    requires Readable(n, d)
    ensures var i := FirstRoom(Rows(n, d), 0); FullUpTo(n, d, i) && (i < DIRECT ==> !FullBlock(n, d, i))
  {
    forall j | 0 <= j < DIRECT
      ensures FullBlock(n, d, j) <==> !HasRoom(Rows(n, d)[j])
    {
      RowFull(n, d, j);
    }
  }

  lemma RowFull(n: Inode, d: Disk, j: nat)
    requires Readable(n, d) && j < DIRECT
    ensures FullBlock(n, d, j) <==> !HasRoom(Rows(n, d)[j])
  {
    assert Blocks(n, d)[j] == n.sectors[j];
    var row := Rows(n, d)[j];
    if FirstHole(row) < |row| {
      assert row[FirstHole(row)] in row;
    }
  }

  lemma OnlyFreeIff(v: Volume)
    requires Alloc(v).Some?
    ensures var t := Alloc(v).value; Alloc(Take(v, t)).None? <==> OnlyFree(v, t)
    ensures (exists b :: OnlyFree(v, b)) <==> OnlyFree(v, Alloc(v).value)
  {
    var t := Alloc(v).value;
    assert forall c :: IsFree(Take(v, t), c) <==> IsFree(v, c) && c != t;
  }

  /** The bitmap on disk follows the one in memory, except exactly after a failed second allocation. */
  lemma BitmapOnDiskIff(n: Inode, v: Volume, e: DirEntry)
    requires Readable(n, v.disk) && v.synced == v.used
    ensures var w := Sync(n, v, e).vol;
            (w.synced == w.used <==> !TableThenFull(n, v)) &&
            (TableThenFull(n, v) ==> w.used == v.used && forall b :: IsFree(v, b) ==> w.synced == v.used + {b})
  {
    RoomExact(n, v.disk);
    var i := FirstRoom(Rows(n, v.disk), 0);
    if i == DIRECT {
      assert Sync(n, v, e) == SyncNewTable(n, v, e);
      if Alloc(v).Some? {
        OnlyFreeIff(v);
        TableOnDisk(n, v, e, Alloc(v).value);
      }
    } else if n.sectors[i] == 0 {
      BlockOnDisk(n, v, e, i);
    }
  }

  lemma BlockOnDisk(n: Inode, v: Volume, e: DirEntry, i: nat)
    requires |n.sectors| == DIRECT + 1 && i < DIRECT && v.synced == v.used
    ensures var w := SyncNewBlock(n, v, e, i).vol; w.synced == w.used
  {
    if Alloc(v).Some? {
      SyncBitmapExact(Take(v, Alloc(v).value), Alloc(v).value);
    }
  }

  lemma TableOnDisk(n: Inode, v: Volume, e: DirEntry, t: nat)
    requires |n.sectors| == DIRECT + 1 && Alloc(v) == Some(t) && v.synced == v.used
    ensures var w := SyncNewTable(n, v, e).vol;
            if Alloc(Take(v, t)).Some? then w.synced == w.used else w.used == v.used && w.synced == v.used + {t}
  {
    var v1 := SyncBitmap(Take(v, t), t);
    assert v1.synced == v1.used by { SyncBitmapExact(Take(v, t), t); }
    AllocIgnoresSynced(Take(v, t), v1, v.start);
    if Alloc(v1).Some? {
      SyncBitmapExact(Take(v1, Alloc(v1).value), Alloc(v1).value);
    }
  }

  lemma {:induction false} AllocIgnoresSynced(v: Volume, w: Volume, b: nat)
    requires v.start == w.start && v.bits == w.bits && v.used == w.used && v.start <= b <= v.start + v.bits
    ensures FirstFree(v, b) == FirstFree(w, b)
    decreases v.start + v.bits - b
  {
    if b < v.start + v.bits && b in v.used {
      AllocIgnoresSynced(v, w, b + 1);
    }
  }

  /** The first direct block that is not full is missing. */
  ghost predicate NeedsBlock(n: Inode, d: Disk)
    requires Readable(n, d)
  {
    exists i :: 0 <= i < DIRECT && n.sectors[i] == 0 && FullUpTo(n, d, i)
  }

  /** A block is needed and none is free, or a table is needed and fewer than two are. */
  ghost predicate Exhausted(n: Inode, v: Volume)
    requires Readable(n, v.disk)
  {
    ((NeedsBlock(n, v.disk) || FullUpTo(n, v.disk, DIRECT)) && NoneFree(v)) || TableThenFull(n, v)
  }

  /** The insertion fails exactly in these cases. They are the calls in which bitmap_scan finds no
      free bit, which it asserts not to happen; every other call stores the entry. */
  lemma FailsIffExhausted(n: Inode, v: Volume, e: DirEntry)
    requires Readable(n, v.disk)
    ensures Sync(n, v, e).result == NoSpace <==> Exhausted(n, v)
  {
    RoomExact(n, v.disk);
    NeedsBlockIff(n, v.disk);
    TableFailsIff(n, v, e);
    if Alloc(v).Some? {
      OnlyFreeIff(v);
    }
  }

  lemma NeedsBlockIff(n: Inode, d: Disk)
    requires Readable(n, d)
    ensures var i := FirstRoom(Rows(n, d), 0);
            (NeedsBlock(n, d) <==> i < DIRECT && n.sectors[i] == 0) && (FullUpTo(n, d, DIRECT) <==> i == DIRECT)
  {
    RoomExact(n, d);
    var i := FirstRoom(Rows(n, d), 0);
    if j :| 0 <= j < DIRECT && n.sectors[j] == 0 && FullUpTo(n, d, j) {
      assert !FullBlock(n, d, j);
      assert j == i;
    }
  }

  lemma TableFailsIff(n: Inode, v: Volume, e: DirEntry)
    requires |n.sectors| == DIRECT + 1
    ensures SyncNewTable(n, v, e).result == NoSpace <==> Alloc(v).None? || Alloc(Take(v, Alloc(v).value)).None?
  {
    if Alloc(v).Some? {
      var t := Alloc(v).value;
      AllocIgnoresSynced(Take(v, t), SyncBitmap(Take(v, t), t), v.start);
    }
  }

  // ------------------------------------------------------- where an entry goes

  ghost predicate FirstDead(slots: seq<DirEntry>, k: nat) {
    k < |slots| && !IsLive(slots[k]) && forall j :: 0 <= j < k ==> IsLive(slots[j])
  }

  /** The entry goes into the first dead slot of block i; nothing is allocated. */
  ghost predicate FillsHole(n: Inode, v: Volume, e: DirEntry, i: nat, s: Synced)
    requires Readable(n, v.disk) && i < DIRECT
  {
    IsSlots(v.disk, n.sectors[i]) && s.node.sectors == n.sectors && s.vol.used == v.used &&
    exists k: nat :: FirstDead(v.disk[n.sectors[i]].slots, k) &&
                s.vol.disk == v.disk[n.sectors[i] := Slots(v.disk[n.sectors[i]].slots[k := e])]
  }

  /** The lowest free block becomes block i and holds the entry alone. */
  ghost predicate TakesBlock(n: Inode, v: Volume, e: DirEntry, i: nat, s: Synced)
    requires Readable(n, v.disk) && i < DIRECT
  {
    exists b :: LowestFree(v, b) && s.node.sectors == n.sectors[i := b] && s.vol.used == v.used + {b} &&
                s.vol.disk == v.disk[b := Slots(NewRow(e))]
  }

  /** The two lowest free blocks become the table and its first block. */
  ghost predicate StartsTable(n: Inode, v: Volume, e: DirEntry, s: Synced)
    requires Readable(n, v.disk)
  {
    exists t, b :: LowestFree(v, t) && LowestFree(Take(v, t), b) && s.node.sectors == n.sectors[DIRECT := t] &&
                   s.vol.used == v.used + {t, b} &&
                   s.vol.disk == v.disk[t := Table(NewTable(b))][b := Slots(NewRow(e))]
  }

  /** An insertion that does not run out of blocks takes the first direct block that is not full:
      its first dead slot if it is there, the lowest free block if it is missing; if all are full, it
      starts a table in the two lowest free blocks. */
  lemma SyncExact(n: Inode, v: Volume, e: DirEntry)
    requires Readable(n, v.disk) && !Exhausted(n, v)
    ensures var s := Sync(n, v, e);
            s.result.Stored? && s.node.size == n.size + ENTRY_SIZE && s.result.block <= DIRECT &&
            FullUpTo(n, v.disk, s.result.block) &&
            if s.result.block == DIRECT then StartsTable(n, v, e, s)
            else if n.sectors[s.result.block] == 0 then TakesBlock(n, v, e, s.result.block, s)
            else FillsHole(n, v, e, s.result.block, s)
  {
    FailsIffExhausted(n, v, e);
    RoomExact(n, v.disk);
    var i := FirstRoom(Rows(n, v.disk), 0);
    if i == DIRECT {
      assert Sync(n, v, e) == SyncNewTable(n, v, e);
      TableExact(n, v, e);
    } else if n.sectors[i] == 0 {
      assert Sync(n, v, e) == SyncNewBlock(n, v, e, i);
      BlockExact(n, v, e, i);
    } else {
      HoleExact(n, v, e, i);
      assert Sync(n, v, e) == SyncIntoHole(n, v, e, i);
    }
  }

  lemma BlockExact(n: Inode, v: Volume, e: DirEntry, i: nat)
    requires Readable(n, v.disk) && i < DIRECT && SyncNewBlock(n, v, e, i).result.Stored?
    ensures var s := SyncNewBlock(n, v, e, i);
            s.result == Stored(i) && s.node.size == n.size + ENTRY_SIZE && TakesBlock(n, v, e, i, s)
  {
    assert LowestFree(v, Alloc(v).value);
  }

  lemma HoleExact(n: Inode, v: Volume, e: DirEntry, i: nat)
    requires Readable(n, v.disk) && i < DIRECT && n.sectors[i] != 0 && HasRoom(Rows(n, v.disk)[i])
    ensures FirstHole(Rows(n, v.disk)[i]) < SLOTS && FillsHole(n, v, e, i, SyncIntoHole(n, v, e, i))
  {
    assert Blocks(n, v.disk)[i] == n.sectors[i];
    var row := Rows(n, v.disk)[i];
    assert row == v.disk[n.sectors[i]].slots && FirstDead(row, FirstHole(row));
  }

  lemma TableExact(n: Inode, v: Volume, e: DirEntry)
    requires Readable(n, v.disk) && SyncNewTable(n, v, e).result.Stored?
    ensures var s := SyncNewTable(n, v, e);
            s.result == Stored(DIRECT) && s.node.size == n.size + ENTRY_SIZE && StartsTable(n, v, e, s)
  {
    var t := Alloc(v).value;
    var v1 := SyncBitmap(Take(v, t), t);
    AllocIgnoresSynced(Take(v, t), v1, v.start);
    assert LowestFree(v, t) && LowestFree(Take(v, t), Alloc(Take(v, t)).value);
    assert v.used + {t} + {Alloc(v1).value} == v.used + {t, Alloc(v1).value};
  }

  /** So the calls that get past that assertion all leave both copies of the bitmap equal. */
  lemma StoredSyncsBitmap(n: Inode, v: Volume, e: DirEntry)
    requires Readable(n, v.disk) && v.synced == v.used && !Exhausted(n, v)
    ensures var s := Sync(n, v, e); s.result.Stored? && s.vol.synced == s.vol.used
  {
    FailsIffExhausted(n, v, e);
    BitmapOnDiskIff(n, v, e);
  }

  /** Deletions always leave both copies equal. */
  lemma DeleteSyncsBitmap(n: Inode, v: Volume, others: set<nat>, ino: nat)
    requires Inv(n, v, others) && v.synced == v.used
    ensures var d := Delete(n, v, ino); d.vol.synced == d.vol.used
  {
    var rows := Rows(n, v.disk);
    var i := FindBlock(rows, ino, 0);
    if i < BLOCKS && FreesBlock(rows[i]) {
      var b := Blocks(n, v.disk)[i];
      assert b in Owned(n, v.disk);
      SyncBitmapExact(Release(v, b), b);
    }
  }
}
