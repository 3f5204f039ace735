/**
 How the listing of a directory reacts when one slot or one row of it changes, and
 what that means for look-ups by name.
 */
module DirListing {
  import opened Common
  import opened DirStore

  // ------------------------------------------------------ splitting a listing

  lemma {:induction false} LiveConcat(a: seq<DirEntry>, b: seq<DirEntry>)
    ensures Live(a + b) == Live(a) + Live(b)
  {
    if a == [] {
      assert a + b == b;
    } else {
      var head := if IsLive(a[0]) then [a[0]] else [];
      assert (a + b)[0] == a[0] && (a + b)[1..] == a[1..] + b;
      LiveConcat(a[1..], b);
      assert Live(a + b) == head + (Live(a[1..]) + Live(b));
      Assoc(head, Live(a[1..]), Live(b));
    }
  }

  lemma {:induction false} ListingConcat(a: seq<seq<DirEntry>>, b: seq<seq<DirEntry>>)
    ensures Listing(a + b) == Listing(a) + Listing(b)
  {
    if a == [] {
      assert a + b == b;
    } else {
      assert (a + b)[0] == a[0] && (a + b)[1..] == a[1..] + b;
      ListingConcat(a[1..], b);
      Assoc(Live(a[0]), Listing(a[1..]), Listing(b));
    }
  }

  /** The listing around row `i`. */
  lemma ListingAround(rows: seq<seq<DirEntry>>, i: nat)
    requires i < |rows|
    ensures Listing(rows) == Listing(rows[..i]) + Live(rows[i]) + Listing(rows[i + 1..])
  {
    assert rows == rows[..i] + rows[i..];
    ListingConcat(rows[..i], rows[i..]);
    assert rows[i..][1..] == rows[i + 1..];
  }

  lemma RowReplaced(rows: seq<seq<DirEntry>>, i: nat, row: seq<DirEntry>)
    requires i < |rows|
    ensures Listing(rows[i := row]) == Listing(rows[..i]) + Live(row) + Listing(rows[i + 1..])
  {
    var rows' := rows[i := row];
    ListingAround(rows', i);
    assert rows'[..i] == rows[..i] && rows'[i + 1..] == rows[i + 1..];
  }

  lemma LiveAround(row: seq<DirEntry>, k: nat)
    requires k < |row|
    ensures Live(row) == Live(row[..k]) + (if IsLive(row[k]) then [row[k]] else []) + Live(row[k + 1..])
  {
    assert row == row[..k] + row[k..];
    LiveConcat(row[..k], row[k..]);
    assert row[k..][1..] == row[k + 1..];
  }

  lemma SlotReplaced(row: seq<DirEntry>, k: nat, e: DirEntry)
    requires k < |row|
    ensures Live(row[k := e]) == Live(row[..k]) + (if IsLive(e) then [e] else []) + Live(row[k + 1..])
  {
    var row' := row[k := e];
    LiveAround(row', k);
    assert row'[..k] == row[..k] && row'[k + 1..] == row[k + 1..];
  }

  /** What comes before and after slot (i, k) in the listing. */
  ghost function Before(rows: seq<seq<DirEntry>>, i: nat, k: nat): seq<DirEntry>
    requires i < |rows| && k <= |rows[i]|
  {
    Listing(rows[..i]) + Live(rows[i][..k])
  }

  ghost function After(rows: seq<seq<DirEntry>>, i: nat, k: nat): seq<DirEntry>
    requires i < |rows| && k <= |rows[i]|
  {
    Live(rows[i][k..]) + Listing(rows[i + 1..])
  }

  lemma SlotInListing(rows: seq<seq<DirEntry>>, i: nat, k: nat)
    requires i < |rows| && k < |rows[i]|
    ensures Listing(rows) == Before(rows, i, k) + (if IsLive(rows[i][k]) then [rows[i][k]] else []) + After(rows, i, k + 1)
  {
    ListingAround(rows, i);
    LiveAround(rows[i], k);
    Regroup(Listing(rows[..i]), Live(rows[i][..k]), if IsLive(rows[i][k]) then [rows[i][k]] else [],
            Live(rows[i][k + 1..]), Listing(rows[i + 1..]));
  }

  lemma Regroup(a: seq<DirEntry>, b: seq<DirEntry>, x: seq<DirEntry>, c: seq<DirEntry>, d: seq<DirEntry>)
    ensures a + (b + x + c) + d == (a + b) + x + (c + d)
  {
  }

  lemma SlotReplacedInListing(rows: seq<seq<DirEntry>>, i: nat, k: nat, e: DirEntry)
    requires i < |rows| && k < |rows[i]|
    ensures Listing(rows[i := rows[i][k := e]]) ==
            Before(rows, i, k) + (if IsLive(e) then [e] else []) + After(rows, i, k + 1)
  {
    RowReplaced(rows, i, rows[i][k := e]);
    SlotReplaced(rows[i], k, e);
    Regroup(Listing(rows[..i]), Live(rows[i][..k]), if IsLive(e) then [e] else [],
            Live(rows[i][k + 1..]), Listing(rows[i + 1..]));
  }

  lemma SlotZeroedInListing(rows: seq<seq<DirEntry>>, i: nat, k: nat)
    requires i < |rows| && k < |rows[i]|
    ensures Listing(rows[i := rows[i][k := ZERO]]) == Before(rows, i, k) + After(rows, i, k + 1)
  {
    SlotReplacedInListing(rows, i, k, ZERO);
  }

  lemma SlotFilledInListing(rows: seq<seq<DirEntry>>, i: nat, k: nat, e: DirEntry)
    requires i < |rows| && k < |rows[i]| && IsLive(e)
    ensures Listing(rows[i := rows[i][k := e]]) == Before(rows, i, k) + [e] + After(rows, i, k + 1)
  {
    SlotReplacedInListing(rows, i, k, e);
  }

  lemma SlotDeadInListing(rows: seq<seq<DirEntry>>, i: nat, k: nat)
    requires i < |rows| && k < |rows[i]| && !IsLive(rows[i][k])
    ensures Listing(rows) == Before(rows, i, k) + After(rows, i, k + 1)
  {
    SlotInListing(rows, i, k);
  }

  lemma {:induction false} NothingLive(row: seq<DirEntry>)
    requires forall k :: 0 <= k < |row| ==> !IsLive(row[k])
    ensures Live(row) == []
  {
    if row != [] {
      NothingLive(row[1..]);
    }
  }

  lemma NewRowLive(e: DirEntry)
    requires IsLive(e)
    ensures Live(NewRow(e)) == [e]
  {
    var r := NewRow(e);
    NothingLive(r[1..]);
  }

  // -------------------------------------------------- listings and membership

  lemma {:induction false} LiveIsLive(row: seq<DirEntry>)
    ensures forall x :: x in Live(row) <==> x in row && IsLive(x)
  {
    if row != [] {
      LiveIsLive(row[1..]);
      assert row == [row[0]] + row[1..];
    }
  }

  lemma SlotListed(rows: seq<seq<DirEntry>>, i: nat, k: nat)
    requires i < |rows| && k < |rows[i]| && IsLive(rows[i][k])
    ensures rows[i][k] in Listing(rows)
  {
    SlotInListing(rows, i, k);
  }

  /** Every listed entry sits in some slot. */
  lemma {:induction false} ListedSlot(rows: seq<seq<DirEntry>>, x: DirEntry) returns (i: nat, k: nat)
    requires x in Listing(rows)
    ensures i < |rows| && k < |rows[i]| && rows[i][k] == x && IsLive(x)
  {
    LiveIsLive(rows[0]);
    if x in Live(rows[0]) {
      i := 0;
      k :| 0 <= k < |rows[0]| && rows[0][k] == x;
    } else {
      i, k := ListedSlot(rows[1..], x);
      i := i + 1;
    }
  }

  lemma SlotIndex(rows: seq<seq<DirEntry>>, i: nat, k: nat)
    requires i < |rows| && k < |rows[i]| && IsLive(rows[i][k])
    ensures |Before(rows, i, k)| < |Listing(rows)| && Listing(rows)[|Before(rows, i, k)|] == rows[i][k]
  {
    SlotInListing(rows, i, k);
  }

  lemma BeforeGrowsInRow(rows: seq<seq<DirEntry>>, i: nat, k: nat, m: nat)
    requires i < |rows| && k < m <= |rows[i]| && IsLive(rows[i][k])
    ensures |Before(rows, i, k)| < |Before(rows, i, m)|
  {
    LiveAround(rows[i][..m], k);
    assert rows[i][..m][..k] == rows[i][..k];
  }

  lemma BeforeGrows(rows: seq<seq<DirEntry>>, i: nat, k: nat, j: nat, m: nat)
    requires i < j < |rows| && k < |rows[i]| && m <= |rows[j]| && IsLive(rows[i][k])
    ensures |Before(rows, i, k)| < |Before(rows, j, m)|
  {
    ListingAround(rows[..j], i);
    assert rows[..j][..i] == rows[..i];
    LiveAround(rows[i], k);
  }

  /** Two live slots are two places of the listing, in slot order. */
  lemma SlotPlaces(rows: seq<seq<DirEntry>>, i: nat, k: nat, j: nat, m: nat)
    requires i < |rows| && k < |rows[i]| && j < |rows| && m < |rows[j]|
    requires i < j || (i == j && k < m)
    requires IsLive(rows[i][k]) && IsLive(rows[j][m])
    ensures var l := Listing(rows);
            var p, q := |Before(rows, i, k)|, |Before(rows, j, m)|;
            p < q < |l| && l[p] == rows[i][k] && l[q] == rows[j][m]
  {
    SlotIndex(rows, i, k);
    SlotIndex(rows, j, m);
    if i < j {
      BeforeGrows(rows, i, k, j, m);
    } else {
      BeforeGrowsInRow(rows, i, k, m);
    }
  }

  /** In a good listing a name picks out one slot, and so does the inode of an ordinary entry. */
  lemma OneSlot(rows: seq<seq<DirEntry>>, i: nat, k: nat, j: nat, m: nat)
    requires GoodList(Listing(rows))
    requires i < |rows| && k < |rows[i]| && j < |rows| && m < |rows[j]|
    requires IsLive(rows[i][k]) && IsLive(rows[j][m])
    requires rows[i][k].name == rows[j][m].name ||
             (!IsDot(rows[i][k]) && !IsDot(rows[j][m]) && rows[i][k].ino == rows[j][m].ino)
    ensures i == j && k == m
  {
    if i < j || (i == j && k < m) {
      SlotPlaces(rows, i, k, j, m);
    } else if j < i || (i == j && m < k) {
      SlotPlaces(rows, j, m, i, k);
    }
  }

  // ------------------------------------------------------------ good listings

  /** May `e` be added: a usable name and type, neither name nor inode present. */
  ghost predicate Fresh(e: DirEntry, l: seq<DirEntry>) {
    IsLive(e) && GoodName(e.name) &&
    (forall i :: 0 <= i < |l| ==> l[i].name != e.name) &&
    (forall i :: 2 <= i < |l| ==> l[i].ino != e.ino)
  }

  lemma GoodAfterInsert(a: seq<DirEntry>, e: DirEntry, b: seq<DirEntry>)
    requires GoodList(a + b) && Fresh(e, a + b) && |a| >= 2
    ensures GoodList(a + [e] + b)
  {
    var l, l' := a + b, a + [e] + b;
    forall i | 0 <= i < |l'| && i != |a|
      ensures l'[i] == l[if i < |a| then i else i - 1]
      ensures IsLive(l'[i]) && GoodName(l'[i].name) && l'[i].name != e.name && (i >= 2 ==> l'[i].ino != e.ino)
    {
      var x := l[if i < |a| then i else i - 1];
    }
    assert l'[|a|] == e;
  }

  lemma GoodAfterRemove(a: seq<DirEntry>, e: DirEntry, b: seq<DirEntry>)
    requires GoodList(a + [e] + b) && |a| >= 2
    ensures GoodList(a + b) && Fresh(e, a + b)
  {
    var l, l' := a + b, a + [e] + b;
    assert l'[|a|] == e;
    forall i | 0 <= i < |l| ensures l[i] == l'[if i < |a| then i else i + 1] {}
  }

  // ------------------------------------------------------------------ look-up

  lemma {:induction false} FindConcat(a: seq<DirEntry>, b: seq<DirEntry>, name: string)
    ensures Find(a + b, name) == if Find(a, name).Some? then Find(a, name) else Find(b, name)
  {
    if a == [] {
      assert a + b == b;
    } else {
      assert (a + b)[1..] == a[1..] + b;
      FindConcat(a[1..], b, name);
    }
  }

  /** Find is look-up in the finite map from names to entries. */
  lemma {:induction false} FindExact(l: seq<DirEntry>, name: string)
    ensures Find(l, name).Some? ==> Find(l, name).value in l && Find(l, name).value.name == name
    ensures Find(l, name).None? ==> forall x :: x in l ==> x.name != name
  {
    if l != [] {
      FindExact(l[1..], name);
      assert l == [l[0]] + l[1..];
    }
  }

  lemma {:induction false} FindInTidyRow(row: seq<DirEntry>, name: string)
    requires name != "" && forall k :: 0 <= k < |row| ==> (IsLive(row[k]) || row[k] == ZERO)
    ensures Find(row, name) == Find(Live(row), name)
  {
    if row != [] {
      FindInTidyRow(row[1..], name);
      FindConcat(if IsLive(row[0]) then [row[0]] else [], Live(row[1..]), name);
    }
  }

  /** The scan over all slots, dead ones included, answers like the listing. */
  lemma {:induction false} FindInRows(rows: seq<seq<DirEntry>>, name: string)
    requires name != "" && forall i :: 0 <= i < |rows| ==> TidyRow(rows[i])
    ensures Find(AllSlots(rows), name) == Find(Listing(rows), name)
  {
    if rows != [] {
      FindInTidyRow(rows[0], name);
      FindInRows(rows[1..], name);
      FindConcat(rows[0], AllSlots(rows[1..]), name);
      FindConcat(Live(rows[0]), Listing(rows[1..]), name);
    }
  }

  /** The directory as a finite map from names to entries. */
  ghost function ToMap(l: seq<DirEntry>): map<string, DirEntry> {
    if l == [] then map[] else ToMap(l[1..])[l[0].name := l[0]]
  }

  /** `m` binds exactly the names of `l`, each to its entry. */
  ghost predicate IsMapOf(m: map<string, DirEntry>, l: seq<DirEntry>) {
    (forall x :: x in l ==> x.name in m && m[x.name] == x) &&
    (forall s :: s in m ==> m[s] in l && m[s].name == s)
  }

  lemma FindIsMapLookup(l: seq<DirEntry>, m: map<string, DirEntry>, name: string)
    requires IsMapOf(m, l)
    ensures Find(l, name) == if name in m then Some(m[name]) else None
  {
    FindExact(l, name);
  }

  lemma {:induction false} ToMapExact(l: seq<DirEntry>)
    requires forall i, j :: 0 <= i < j < |l| ==> l[i].name != l[j].name
    ensures IsMapOf(ToMap(l), l)
  {
    if l != [] {
      ToMapExact(l[1..]);
    }
  }
}
