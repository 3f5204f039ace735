/**
 The directory invariant is kept by every in-scope insertion and deletion, successful or
 not; what each of them does to the listing; and which calls are out of scope.
 */
module DirInvariant {
  import opened Common
  import opened DirStore
  import opened DirListing

  // ----------------------------------------- rows and blocks after one change

  lemma RowsAfterWrite(n: Inode, n': Inode, d: Disk, i: nat, row: seq<DirEntry>)
    requires Readable(n, d) && Distinct(n, d) && i < BLOCKS && Blocks(n, d)[i] != 0 && |row| == SLOTS
    requires n'.sectors == n.sectors
    ensures var d' := d[Blocks(n, d)[i] := Slots(row)];
            Readable(n', d') && Blocks(n', d') == Blocks(n, d) && Rows(n', d') == Rows(n, d)[i := row]
  {
    var d' := d[Blocks(n, d)[i] := Slots(row)];
    assert Blocks(n, d)[i] in Blocks(n, d);
    assert TableOk(n', d') && Blocks(n', d') == Blocks(n, d);
    forall j | 0 <= j < BLOCKS && j != i && Blocks(n, d)[j] != 0
      ensures Blocks(n, d)[j] != Blocks(n, d)[i]
    {
    }
  }

  lemma RowsAfterGrow(n: Inode, n': Inode, d: Disk, i: nat, b: nat, row: seq<DirEntry>)
    requires Readable(n, d) && Distinct(n, d) && i < DIRECT && n.sectors[i] == 0 && |row| == SLOTS
    requires b != 0 && b !in Owned(n, d) && n'.sectors == n.sectors[i := b]
    ensures var d' := d[b := Slots(row)];
            Readable(n', d') && Blocks(n', d') == Blocks(n, d)[i := b] && Rows(n', d') == Rows(n, d)[i := row]
            && Distinct(n', d') && Owned(n', d') == Owned(n, d) + {b}
  {
    var d' := d[b := Slots(row)];
    assert TableOk(n', d') && Blocks(n', d') == Blocks(n, d)[i := b];
    assert b !in Blocks(n, d);
    OwnedAfterSet(Blocks(n, d), i, b);
  }

  lemma RowsAfterDrop(n: Inode, n': Inode, d: Disk, i: nat)
    requires Readable(n, d) && Distinct(n, d) && i < DIRECT && n.sectors[i] != 0
    requires n'.sectors == n.sectors[i := 0]
    ensures Readable(n', d) && Blocks(n', d) == Blocks(n, d)[i := 0] && Rows(n', d) == Rows(n, d)[i := []]
            && Distinct(n', d) && Owned(n', d) == Owned(n, d) - {n.sectors[i]}
  {
    assert TableOk(n', d) && Blocks(n', d) == Blocks(n, d)[i := 0];
    assert n.sectors[i] == Blocks(n, d)[i];
    assert n.sectors[i] in Blocks(n, d);
    var bs, bs' := Blocks(n, d), Blocks(n', d);
    forall b | b != 0
      ensures b in bs' <==> b in bs && b != n.sectors[i]
    {
      if b in bs && b != n.sectors[i] {
        var j :| 0 <= j < BLOCKS && bs[j] == b;
        assert bs'[j] == b;
      }
    }
  }

  lemma RowsAfterTable(n: Inode, n': Inode, d: Disk, t: nat, b: nat, row: seq<DirEntry>)
    requires Readable(n, d) && Distinct(n, d) && n.sectors[DIRECT] == 0 && |row| == SLOTS
    requires t != 0 && b != 0 && t != b && t !in Owned(n, d) && b !in Owned(n, d)
    requires n'.sectors == n.sectors[DIRECT := t]
    ensures var d' := d[t := Table(NewTable(b))][b := Slots(row)];
            Readable(n', d') && Blocks(n', d') == Blocks(n, d)[DIRECT := b] && Rows(n', d') == Rows(n, d)[DIRECT := row]
            && Distinct(n', d') && Owned(n', d') == Owned(n, d) + {t, b}
  {
    var d' := d[t := Table(NewTable(b))][b := Slots(row)];
    assert TableOk(n', d') && Blocks(n', d') == Blocks(n, d)[DIRECT := b];
    assert b !in Blocks(n, d) && t !in Blocks(n, d);
    OwnedAfterSet(Blocks(n, d), DIRECT, b);
  }

  lemma OwnedAfterSet(bs: seq<nat>, i: nat, b: nat)
    requires i < |bs| && bs[i] == 0 && b != 0
    ensures NonZero(bs[i := b]) == NonZero(bs) + {b}
  {
    var bs' := bs[i := b];
    assert bs'[i] == b;
    forall c | c != 0 && c in bs
      ensures c in bs'
    {
      var j :| 0 <= j < |bs| && bs[j] == c;
      assert bs'[j] == c;
    }
  }

  // ------------------------------------------------------------------- insert

  /** `l'` is `l` with `e` put in at some place behind "." and "..". */
  ghost predicate Inserted(l: seq<DirEntry>, l': seq<DirEntry>, e: DirEntry) {
    exists p :: 2 <= p <= |l| && l' == l[..p] + [e] + l[p..]
  }

  lemma ListInsert(l: seq<DirEntry>, a: seq<DirEntry>, e: DirEntry, b: seq<DirEntry>)
    requires l == a + b && |a| >= 2 && GoodList(l) && Fresh(e, l)
    ensures GoodList(a + [e] + b) && |a + [e] + b| == |l| + 1 && Inserted(l, a + [e] + b, e)
  {
    GoodAfterInsert(a, e, b);
    var p := |a|;
    assert (a + b)[..p] == a && (a + b)[p..] == b;
  }

  /** "." and ".." come before every other slot. */
  lemma DotsFirst(rows: seq<seq<DirEntry>>, i: nat, k: nat)
    requires Tidy(rows) && i < BLOCKS && k <= |rows[i]| && (i > 0 || k >= 2)
    ensures |Before(rows, i, k)| >= 2
  {
    var r := if i > 0 then rows[0] else rows[0][..k];
    assert r[..2] == [rows[0][0], rows[0][1]];
    LiveAround(r, 1);
    LiveAround(r[..1], 0);
    assert r[..1][..0] == [];
    assert Live(r[..1]) == [r[0]];
    if i > 0 {
      ListingAround(rows[..i], 0);
    }
  }

  lemma HoleKeepsInv(n: Inode, v: Volume, others: set<nat>, e: DirEntry, i: nat)
    requires Inv(n, v, others) && Fresh(e, List(n, v.disk))
    requires i < DIRECT && n.sectors[i] != 0 && FirstHole(Rows(n, v.disk)[i]) < SLOTS
    ensures var s := SyncIntoHole(n, v, e, i);
            Inv(s.node, s.vol, others) && Inserted(List(n, v.disk), List(s.node, s.vol.disk), e)
  {
    var s := SyncIntoHole(n, v, e, i);
    var rows := Rows(n, v.disk);
    var k := FirstHole(rows[i]);
    var row := rows[i][k := e];
    RowsAfterWrite(n, s.node, v.disk, i, row);
    var rows' := Rows(s.node, s.vol.disk);
    HoleInListing(rows, i, k, e);
    HoleTidy(rows, i, k, e);
    if n.sectors[DIRECT] != 0 {
      TableStillUsed(n, s.node, v.disk, s.vol.disk);
    }
  }

  /** A dead slot that takes `e`. */
  lemma HoleInListing(rows: seq<seq<DirEntry>>, i: nat, k: nat, e: DirEntry)
    requires Tidy(rows) && GoodList(Listing(rows)) && Fresh(e, Listing(rows))
    requires i < BLOCKS && k < |rows[i]| && !IsLive(rows[i][k])
    ensures var l' := Listing(rows[i := rows[i][k := e]]);
            GoodList(l') && Inserted(Listing(rows), l', e) && |l'| == |Listing(rows)| + 1
  {
    DotsFirst(rows, i, k);
    SlotDeadInListing(rows, i, k);
    SlotFilledInListing(rows, i, k, e);
    ListInsert(Listing(rows), Before(rows, i, k), e, After(rows, i, k + 1));
  }

  lemma HoleTidy(rows: seq<seq<DirEntry>>, i: nat, k: nat, e: DirEntry)
    requires Tidy(rows) && i < BLOCKS && k < |rows[i]| && !IsLive(rows[i][k]) && IsLive(e)
    ensures Tidy(rows[i := rows[i][k := e]])
  {
    SlotReplaced(rows[i], k, e);
    TidyReplace(rows, i, rows[i][k := e]);
  }

  lemma TidyReplace(rows: seq<seq<DirEntry>>, i: nat, row: seq<DirEntry>)
    requires Tidy(rows) && i < BLOCKS && TidyRow(row)
    requires i == 0 ==> row != [] && row[..2] == rows[0][..2]
    requires i > 0 && row != [] ==> Live(row) != []
    ensures Tidy(rows[i := row])
  {
    if i == 0 {
      assert row[0] == row[..2][0] && row[1] == row[..2][1];
    }
  }

  lemma AllocFacts(v: Volume, n: Inode, others: set<nat>, b: nat)
    requires Inv(n, v, others) && Alloc(v) == Some(b)
    ensures b != 0 && b !in v.used && b !in others && b !in Owned(n, v.disk)
    ensures VolumeOk(Take(v, b))
  {
  }

  lemma NewBlockKeepsInv(n: Inode, v: Volume, others: set<nat>, e: DirEntry, i: nat)
    requires Inv(n, v, others) && Fresh(e, List(n, v.disk))
    requires i < DIRECT && n.sectors[i] == 0 && Alloc(v).Some?
    ensures var s := SyncNewBlock(n, v, e, i);
            Inv(s.node, s.vol, others) && Inserted(List(n, v.disk), List(s.node, s.vol.disk), e)
  {
    var s := SyncNewBlock(n, v, e, i);
    var b := Alloc(v).value;
    AllocFacts(v, n, others, b);
    RowsAfterGrow(n, s.node, v.disk, i, b, NewRow(e));
    NewRowInListing(Rows(n, v.disk), i, e);
    if n.sectors[DIRECT] != 0 {
      TableStillUsed(n, s.node, v.disk, s.vol.disk);
    }
  }

  lemma TableStillUsed(n: Inode, n': Inode, d: Disk, d': Disk)
    requires TableOk(n, d) && TableOk(n', d') && TableInUse(n, d)
    requires forall j :: DIRECT <= j < BLOCKS ==> Blocks(n', d')[j] == Blocks(n, d)[j]
    ensures TableInUse(n', d')
  {
    var j :| DIRECT <= j < BLOCKS && Blocks(n, d)[j] != 0;
    assert Blocks(n', d')[j] != 0;
  }

  lemma NewRowAround(rows: seq<seq<DirEntry>>, i: nat, e: DirEntry)
    requires i < |rows| && rows[i] == [] && IsLive(e)
    ensures Listing(rows) == Listing(rows[..i]) + Listing(rows[i + 1..])
    ensures Listing(rows[i := NewRow(e)]) == Listing(rows[..i]) + [e] + Listing(rows[i + 1..])
  {
    ListingAround(rows, i);
    RowReplaced(rows, i, NewRow(e));
    NewRowLive(e);
  }

  /** A new row that holds only `e`. */
  lemma NewRowInListing(rows: seq<seq<DirEntry>>, i: nat, e: DirEntry)
    requires Tidy(rows) && i < BLOCKS && rows[i] == [] && GoodList(Listing(rows)) && Fresh(e, Listing(rows))
    ensures var rows' := rows[i := NewRow(e)];
            Tidy(rows') && GoodList(Listing(rows')) && Inserted(Listing(rows), Listing(rows'), e)
            && |Listing(rows')| == |Listing(rows)| + 1
  {
    NewRowAround(rows, i, e);
    DotsFirst(rows, i, 0);
    var a, b := Listing(rows[..i]), Listing(rows[i + 1..]);
    assert Before(rows, i, 0) == a;
    ListInsert(Listing(rows), a, e, b);
    NewRowLive(e);
    TidyReplace(rows, i, NewRow(e));
  }

  lemma NewTableKeepsInv(n: Inode, v: Volume, others: set<nat>, e: DirEntry)
    requires Inv(n, v, others) && Fresh(e, List(n, v.disk)) && n.sectors[DIRECT] == 0
    ensures var s := SyncNewTable(n, v, e);
            Inv(s.node, s.vol, others) &&
            (s.result.Stored? ==> Inserted(List(n, v.disk), List(s.node, s.vol.disk), e)) &&
            (s.result.NoSpace? ==> s.node == n && s.vol.disk == v.disk && s.vol.used == v.used)
  {
    var s := SyncNewTable(n, v, e);
    if Alloc(v).Some? {
      var t := Alloc(v).value;
      AllocFacts(v, n, others, t);
      var v1 := SyncBitmap(Take(v, t), t);
      if Alloc(v1).Some? {
        TableKeepsInv(n, v, others, e, t, Alloc(v1).value, s.node, s.vol);
      } else {
        assert n.sectors[DIRECT := 0] == n.sectors;
      }
    }
  }

  lemma TableKeepsInv(n: Inode, v: Volume, others: set<nat>, e: DirEntry, t: nat, b: nat, n': Inode, v': Volume)
    requires Inv(n, v, others) && Fresh(e, List(n, v.disk)) && n.sectors[DIRECT] == 0
    requires t != b && v.start <= t < v.start + v.bits && v.start <= b < v.start + v.bits && t !in v.used && b !in v.used
    requires n' == Grow(n.(sectors := n.sectors[DIRECT := t])) && v'.start == v.start && v'.bits == v.bits
    requires v'.disk == v.disk[t := Table(NewTable(b))][b := Slots(NewRow(e))] && v'.used == v.used + {t} + {b}
    ensures Inv(n', v', others) && Inserted(List(n, v.disk), List(n', v'.disk), e)
  {
    RowsAfterTable(n, n', v.disk, t, b, NewRow(e));
    NewRowInListing(Rows(n, v.disk), DIRECT, e);
    assert Blocks(n', v'.disk)[DIRECT] == b;
  }

  /** Room in a direct block, or no indirect table yet: the calls sync_dir_entry is right for. */
  predicate InScope(n: Inode, v: Volume)
    requires Readable(n, v.disk)
  {
    n.sectors[DIRECT] == 0 || FirstRoom(Rows(n, v.disk), 0) < DIRECT
  }

  /** Every in-scope insertion keeps the invariant. A stored entry joins the listing, all others
      stay in their order; a failed call leaves inode, sectors and bitmap as they were. */
  lemma SyncKeepsInv(n: Inode, v: Volume, others: set<nat>, e: DirEntry)
    requires Inv(n, v, others) && Fresh(e, List(n, v.disk)) && InScope(n, v)
    ensures var s := Sync(n, v, e);
            Inv(s.node, s.vol, others) &&
            (s.result.Stored? ==> Inserted(List(n, v.disk), List(s.node, s.vol.disk), e)) &&
            (s.result.NoSpace? ==> s.node == n && s.vol.disk == v.disk && s.vol.used == v.used)
  {
    var i := FirstRoom(Rows(n, v.disk), 0);
    var s := Sync(n, v, e);
    if i == DIRECT {
      assert s == SyncNewTable(n, v, e);
      NewTableKeepsInv(n, v, others, e);
    } else if n.sectors[i] != 0 {
      assert s == SyncIntoHole(n, v, e, i);
      HoleKeepsInv(n, v, others, e, i);
    } else if Alloc(v).Some? {
      assert s == SyncNewBlock(n, v, e, i);
      NewBlockKeepsInv(n, v, others, e, i);
    }
  }

  // ------------------------------------------------------------------- delete

  lemma {:induction false} CountLive(row: seq<DirEntry>)
    requires forall k :: 0 <= k < |row| && IsLive(row[k]) ==> !IsDot(row[k])
    ensures Count(row) == |Live(row)|
  {
    if row != [] {
      CountLive(row[1..]);
    }
  }

  /** "." and ".." occur only as the first two slots. */
  lemma NoOtherDots(rows: seq<seq<DirEntry>>, i: nat, k: nat)
    requires Tidy(rows) && GoodList(Listing(rows)) && i < BLOCKS && k < |rows[i]| && IsLive(rows[i][k])
    ensures IsDot(rows[i][k]) <==> i == 0 && k < 2
  {
    if rows[i][k].name == "." {
      OneSlot(rows, i, k, 0, 0);
    } else if rows[i][k].name == ".." {
      OneSlot(rows, i, k, 0, 1);
    }
  }

  /** A row gives its block back exactly if it is not row 0 and one entry is all it holds. */
  lemma FreesBlockIff(rows: seq<seq<DirEntry>>, i: nat)
    requires Tidy(rows) && GoodList(Listing(rows)) && i < BLOCKS
    ensures FreesBlock(rows[i]) <==> i > 0 && |Live(rows[i])| == 1
  {
    if i > 0 {
      forall k | 0 <= k < |rows[i]| && IsLive(rows[i][k])
        ensures !IsDot(rows[i][k])
      {
        NoOtherDots(rows, i, k);
      }
      CountLive(rows[i]);
    }
  }

  /** The scan stops at the one slot that holds the inode. */
  lemma VictimPlace(rows: seq<seq<DirEntry>>, i: nat, k: nat, ino: nat)
    requires Tidy(rows) && GoodList(Listing(rows)) && i < BLOCKS && k < |rows[i]| && IsVictim(rows[i][k], ino)
    ensures FindBlock(rows, ino, 0) == i && Victim(rows[i], ino) == k
  {
    var j := FindBlock(rows, ino, 0);
    if j < BLOCKS {
      OneSlot(rows, i, k, j, Victim(rows[j], ino));
    }
  }

  /** `l'` is `l` without one ordinary entry of that inode. */
  ghost predicate Dropped(l: seq<DirEntry>, l': seq<DirEntry>, ino: nat) {
    exists p :: 2 <= p < |l| && l[p].ino == ino && l' == l[..p] + l[p + 1..]
  }

  lemma ListRemove(l: seq<DirEntry>, a: seq<DirEntry>, e: DirEntry, b: seq<DirEntry>)
    requires l == a + [e] + b && |a| >= 2 && GoodList(l)
    ensures GoodList(a + b) && |a + b| == |l| - 1 && Dropped(l, a + b, e.ino)
  {
    GoodAfterRemove(a, e, b);
    var p := |a|;
    assert l[p] == e && l[..p] == a && l[p + 1..] == b;
  }

  lemma ClearedInListing(rows: seq<seq<DirEntry>>, i: nat, k: nat)
    requires Tidy(rows) && GoodList(Listing(rows)) && i < BLOCKS && k < |rows[i]|
    requires IsLive(rows[i][k]) && !IsDot(rows[i][k])
    ensures var l' := Listing(rows[i := rows[i][k := ZERO]]);
            GoodList(l') && Dropped(Listing(rows), l', rows[i][k].ino) && |l'| == |Listing(rows)| - 1
  {
    NoOtherDots(rows, i, k);
    DotsFirst(rows, i, k);
    SlotInListing(rows, i, k);
    SlotZeroedInListing(rows, i, k);
    ListRemove(Listing(rows), Before(rows, i, k), rows[i][k], After(rows, i, k + 1));
  }

  lemma ClearedTidy(rows: seq<seq<DirEntry>>, i: nat, k: nat)
    requires Tidy(rows) && GoodList(Listing(rows)) && i < BLOCKS && k < |rows[i]|
    requires IsLive(rows[i][k]) && !IsDot(rows[i][k]) && !FreesBlock(rows[i])
    ensures Tidy(rows[i := rows[i][k := ZERO]])
  {
    NoOtherDots(rows, i, k);
    FreesBlockIff(rows, i);
    LiveAround(rows[i], k);
    SlotReplaced(rows[i], k, ZERO);
    TidyReplace(rows, i, rows[i][k := ZERO]);
  }

  lemma FreedInListing(rows: seq<seq<DirEntry>>, i: nat, k: nat)
    requires Tidy(rows) && GoodList(Listing(rows)) && 0 < i < BLOCKS && k < |rows[i]|
    requires Live(rows[i]) == [rows[i][k]]
    ensures var rows' := rows[i := []];
            Tidy(rows') && GoodList(Listing(rows')) && Dropped(Listing(rows), Listing(rows'), rows[i][k].ino)
            && |Listing(rows')| == |Listing(rows)| - 1
  {
    var a, b := Listing(rows[..i]), Listing(rows[i + 1..]);
    FreedAround(rows, i, rows[i][k]);
    DotsFirst(rows, i, 0);
    assert Before(rows, i, 0) == a;
    ListRemove(Listing(rows), a, rows[i][k], b);
    TidyReplace(rows, i, []);
  }

  lemma FreedAround(rows: seq<seq<DirEntry>>, i: nat, x: DirEntry)
    requires i < |rows| && Live(rows[i]) == [x]
    ensures Listing(rows) == Listing(rows[..i]) + [x] + Listing(rows[i + 1..])
    ensures Listing(rows[i := []]) == Listing(rows[..i]) + Listing(rows[i + 1..])
  {
    ListingAround(rows, i);
    RowReplaced(rows, i, []);
  }

  /** The inode's entry is alone in an indirect block: the calls delete_dir_entry never returns from. */
  ghost predicate SoleIndirect(rows: seq<seq<DirEntry>>, ino: nat) {
    exists i, k :: DIRECT <= i < |rows| && 0 <= k < |rows[i]| && IsVictim(rows[i][k], ino) && Live(rows[i]) == [rows[i][k]]
  }

  ghost predicate Listed(l: seq<DirEntry>, ino: nat) {
    exists p :: 2 <= p < |l| && l[p].ino == ino
  }

  lemma VictimListed(rows: seq<seq<DirEntry>>, i: nat, k: nat, ino: nat)
    requires Tidy(rows) && GoodList(Listing(rows)) && i < BLOCKS && k < |rows[i]| && IsVictim(rows[i][k], ino)
    ensures Listed(Listing(rows), ino)
  {
    SlotInListing(rows, i, k);
    NoOtherDots(rows, i, k);
    DotsFirst(rows, i, k);
    assert Listing(rows)[|Before(rows, i, k)|] == rows[i][k];
  }

  lemma ListedVictim(rows: seq<seq<DirEntry>>, ino: nat) returns (i: nat, k: nat)
    requires Tidy(rows) && GoodList(Listing(rows)) && Listed(Listing(rows), ino)
    ensures i < BLOCKS && k < |rows[i]| && IsVictim(rows[i][k], ino)
  {
    var l := Listing(rows);
    var p :| 2 <= p < |l| && l[p].ino == ino;
    i, k := ListedSlot(rows, l[p]);
    assert l[0].name != l[p].name && l[1].name != l[p].name;
  }

  lemma SoleInRow(row: seq<DirEntry>, k: nat)
    requires k < |row| && IsLive(row[k]) && |Live(row)| == 1
    ensures Live(row) == [row[k]]
  {
    LiveAround(row, k);
  }

  /** delete_dir_entry: it misses exactly the inodes that are not listed, it hangs exactly on an
      entry alone in an indirect block, and otherwise it drops that one entry and keeps the invariant. */
  lemma DeleteKeepsInv(n: Inode, v: Volume, others: set<nat>, ino: nat)
    requires Inv(n, v, others)
    ensures var l := List(n, v.disk);
            var d := Delete(n, v, ino);
            (d.result == NotFound <==> !Listed(l, ino)) &&
            (d.result == Hangs <==> SoleIndirect(Rows(n, v.disk), ino)) &&
            (d.result == NotFound ==> d.node == n && d.vol == v) &&
            (d.result == Removed ==> Inv(d.node, d.vol, others) && Dropped(l, List(d.node, d.vol.disk), ino))
  {
    var rows := Rows(n, v.disk);
    if Listed(Listing(rows), ino) {
      var i, k := ListedVictim(rows, ino);
      DeleteListed(n, v, others, i, k, ino);
    } else {
      var i := FindBlock(rows, ino, 0);
      if i < BLOCKS {
        VictimListed(rows, i, Victim(rows[i], ino), ino);
      }
      if SoleIndirect(rows, ino) {
        SoleIndirectListed(rows, ino);
      }
    }
  }

  lemma DeleteListed(n: Inode, v: Volume, others: set<nat>, i: nat, k: nat, ino: nat)
    requires Inv(n, v, others) && i < BLOCKS && k < |Rows(n, v.disk)[i]| && IsVictim(Rows(n, v.disk)[i][k], ino)
    ensures var d := Delete(n, v, ino);
            d.result != NotFound && (d.result == Hangs <==> SoleIndirect(Rows(n, v.disk), ino)) &&
            (d.result == Removed ==> Inv(d.node, d.vol, others) && Dropped(List(n, v.disk), List(d.node, d.vol.disk), ino))
  {
    var rows := Rows(n, v.disk);
    VictimPlace(rows, i, k, ino);
    FreesBlockIff(rows, i);
    SoleIndirectIff(rows, i, k, ino);
    if !FreesBlock(rows[i]) {
      ClearKeepsInv(n, v, others, i, k);
    } else if i < DIRECT {
      SoleInRow(rows[i], k);
      FreeKeepsInv(n, v, others, i, k);
    }
  }

  lemma SoleIndirectListed(rows: seq<seq<DirEntry>>, ino: nat)
    requires Tidy(rows) && GoodList(Listing(rows)) && SoleIndirect(rows, ino)
    ensures Listed(Listing(rows), ino)
  {
    var i, k :| DIRECT <= i < |rows| && 0 <= k < |rows[i]| && IsVictim(rows[i][k], ino) && Live(rows[i]) == [rows[i][k]];
    VictimListed(rows, i, k, ino);
  }

  lemma SoleIndirectIff(rows: seq<seq<DirEntry>>, i: nat, k: nat, ino: nat)
    requires Tidy(rows) && GoodList(Listing(rows)) && i < BLOCKS && k < |rows[i]| && IsVictim(rows[i][k], ino)
    ensures SoleIndirect(rows, ino) <==> i >= DIRECT && |Live(rows[i])| == 1
  {
    if j, m :| DIRECT <= j < |rows| && 0 <= m < |rows[j]| && IsVictim(rows[j][m], ino) && Live(rows[j]) == [rows[j][m]] {
      OneSlot(rows, i, k, j, m);
    }
    if |Live(rows[i])| == 1 {
      SoleInRow(rows[i], k);
    }
  }

  lemma ClearKeepsInv(n: Inode, v: Volume, others: set<nat>, i: nat, k: nat)
    requires Inv(n, v, others) && i < BLOCKS && k < |Rows(n, v.disk)[i]|
    requires var e := Rows(n, v.disk)[i][k]; IsLive(e) && !IsDot(e) && !FreesBlock(Rows(n, v.disk)[i])
    ensures var d := ClearSlot(n, v, i, k);
            Inv(d.node, d.vol, others) && Dropped(List(n, v.disk), List(d.node, d.vol.disk), Rows(n, v.disk)[i][k].ino)
  {
    var d := ClearSlot(n, v, i, k);
    var rows := Rows(n, v.disk);
    RowsAfterWrite(n, d.node, v.disk, i, rows[i][k := ZERO]);
    ClearedInListing(rows, i, k);
    ClearedTidy(rows, i, k);
    if n.sectors[DIRECT] != 0 {
      TableStillUsed(n, d.node, v.disk, d.vol.disk);
    }
  }

  lemma FreeKeepsInv(n: Inode, v: Volume, others: set<nat>, i: nat, k: nat)
    requires Inv(n, v, others) && 0 < i < DIRECT && k < |Rows(n, v.disk)[i]|
    requires Live(Rows(n, v.disk)[i]) == [Rows(n, v.disk)[i][k]]
    ensures var d := FreeBlock(n, v, i);
            Inv(d.node, d.vol, others) && Dropped(List(n, v.disk), List(d.node, d.vol.disk), Rows(n, v.disk)[i][k].ino)
  {
    var d := FreeBlock(n, v, i);
    var rows := Rows(n, v.disk);
    RowsAfterDrop(n, d.node, v.disk, i);
    FreedInListing(rows, i, k);
    assert n.sectors[i] in Owned(n, v.disk);
    if n.sectors[DIRECT] != 0 {
      TableStillUsed(n, d.node, v.disk, d.vol.disk);
    }
  }
}
