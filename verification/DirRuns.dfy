/**
 Whole runs over any number of directories that share one partition: the invariant, block
 conservation, and non-interference, against a specification of plain finite maps.
 */
module DirRuns {
  import opened Common
  import opened DirStore
  import opened DirListing
  import opened DirInvariant
  import opened DirTheorems

  datatype Call = Insert(e: DirEntry) | Remove(ino: nat)

  // ------------------------------------------------------------ one directory

  ghost function OwnedOf(n: Inode, v: Volume): set<nat> {
    if TableOk(n, v.disk) then Owned(n, v.disk) else {}
  }

  ghost function RowsOf(n: Inode, v: Volume): seq<seq<DirEntry>> {
    if Readable(n, v.disk) then Rows(n, v.disk) else []
  }

  ghost function EntriesOf(n: Inode, v: Volume): map<string, DirEntry> { ToMap(Listing(RowsOf(n, v))) }

  /** The blocks in use that are not the directory's own. */
  ghost function Others(n: Inode, v: Volume): set<nat> { v.used - OwnedOf(n, v) }

  ghost predicate DirOk(n: Inode, v: Volume) { Inv(n, v, Others(n, v)) }

  /** The calls in scope: a fresh entry with room for it, or an inode whose deletion returns. */
  ghost predicate Allowed(n: Inode, v: Volume, c: Call) {
    Readable(n, v.disk) &&
    match c
    case Insert(e) => Fresh(e, List(n, v.disk)) && InScope(n, v)
    case Remove(ino) => !SoleIndirect(Rows(n, v.disk), ino)
  }

  function Act(n: Inode, v: Volume, c: Call): (Inode, Volume)
    requires Readable(n, v.disk)
  {
    match c
    case Insert(e) => var s := Sync(n, v, e); (s.node, s.vol)
    case Remove(ino) => var d := Delete(n, v, ino); (d.node, d.vol)
  }

  predicate Stores(n: Inode, v: Volume, c: Call)
    requires Readable(n, v.disk)
  {
    c.Insert? && Sync(n, v, c.e).result.Stored?
  }

  /** What a call does to a directory that is a plain finite map. */
  ghost function SpecCall(m: map<string, DirEntry>, c: Call, stored: bool): map<string, DirEntry> {
    match c
    case Insert(e) => if stored then m[e.name := e] else m
    case Remove(ino) => map s | s in m && !Binds(m, s, ino) :: m[s]
  }

  lemma SyncTouchesOwn(n: Inode, v: Volume, others: set<nat>, e: DirEntry)
    requires Readable(n, v.disk) && others <= v.used && others !! Owned(n, v.disk)
    ensures SameOn(v.disk, Sync(n, v, e).vol.disk, others)
  {
    var i := FirstRoom(Rows(n, v.disk), 0);
    DirectOwned(n, v.disk);
    if i == DIRECT {
      TableTouchesFree(n, v, e, others);
    } else if n.sectors[i] == 0 {
      assert SameOn(v.disk, SyncNewBlock(n, v, e, i).vol.disk, others);
    } else {
      assert SameOn(v.disk, SyncIntoHole(n, v, e, i).vol.disk, others);
    }
  }

  lemma TableTouchesFree(n: Inode, v: Volume, e: DirEntry, others: set<nat>)
    requires |n.sectors| == DIRECT + 1 && others <= v.used
    ensures SameOn(v.disk, SyncNewTable(n, v, e).vol.disk, others)
  {
    if Alloc(v).Some? {
      var t := Alloc(v).value;
      var v1 := SyncBitmap(Take(v, t), t);
      if Alloc(v1).Some? {
        assert Alloc(v1).value !in v1.used;
      }
    }
  }

  lemma DeleteTouchesOwn(n: Inode, v: Volume, others: set<nat>, ino: nat)
    requires Readable(n, v.disk) && others !! Owned(n, v.disk)
    ensures SameOn(v.disk, Delete(n, v, ino).vol.disk, others)
  {
    var i := FindBlock(Rows(n, v.disk), ino, 0);
    if i < BLOCKS {
      assert Blocks(n, v.disk)[i] in Owned(n, v.disk);
    }
  }

  /** One call: the directory stays valid, and every other block in use is left as it is. */
  lemma CallKeeps(n: Inode, v: Volume, c: Call)
    requires DirOk(n, v) && Allowed(n, v, c)
    ensures var (n', v') := Act(n, v, c);
            DirOk(n', v') && Others(n', v') == Others(n, v) && SameOn(v.disk, v'.disk, Others(n, v))
  {
    match c {
      case Insert(e) => InsertKeeps(n, v, e);
      case Remove(ino) => RemoveKeeps(n, v, ino);
    }
  }

  lemma InsertKeeps(n: Inode, v: Volume, e: DirEntry)
    requires DirOk(n, v) && Allowed(n, v, Insert(e))
    ensures var s := Sync(n, v, e);
            DirOk(s.node, s.vol) && Others(s.node, s.vol) == Others(n, v) && SameOn(v.disk, s.vol.disk, Others(n, v))
  {
    var o := Others(n, v);
    SyncTouchesOwn(n, v, o, e);
    SyncKeepsInv(n, v, o, e);
    OthersFixed(Sync(n, v, e).node, Sync(n, v, e).vol, o);
  }

  lemma RemoveKeeps(n: Inode, v: Volume, ino: nat)
    requires DirOk(n, v) && Allowed(n, v, Remove(ino))
    ensures var d := Delete(n, v, ino);
            DirOk(d.node, d.vol) && Others(d.node, d.vol) == Others(n, v) && SameOn(v.disk, d.vol.disk, Others(n, v))
  {
    var o := Others(n, v);
    DeleteTouchesOwn(n, v, o, ino);
    DeleteKeepsInv(n, v, o, ino);
    OthersFixed(Delete(n, v, ino).node, Delete(n, v, ino).vol, o);
  }

  lemma OthersFixed(n: Inode, v: Volume, o: set<nat>)
    requires Inv(n, v, o)
    ensures Others(n, v) == o
  {
  }

  /** One call changes the entries as the finite map says. */
  lemma CallRefines(n: Inode, v: Volume, c: Call)
    requires DirOk(n, v) && Allowed(n, v, c)
    ensures var (n', v') := Act(n, v, c);
            EntriesOf(n', v') == SpecCall(EntriesOf(n, v), c, Stores(n, v, c))
  {
    match c {
      case Insert(e) => SyncIsMapInsert(n, v, Others(n, v), e);
      case Remove(ino) => DeleteIsMapRemove(n, v, Others(n, v), ino);
    }
  }

  lemma SameRows(n: Inode, d: Disk, d': Disk)
    requires Readable(n, d) && SameOn(d, d', Owned(n, d))
    ensures Readable(n, d') && Blocks(n, d') == Blocks(n, d) && Rows(n, d') == Rows(n, d)
  {
    var bs := Blocks(n, d);
    assert TableOk(n, d') && Blocks(n, d') == bs;
    forall i | 0 <= i < BLOCKS && bs[i] != 0
      ensures IsSlots(d', bs[i]) && d'[bs[i]] == d[bs[i]]
    {
      assert bs[i] in Owned(n, d);
    }
  }

  /** A directory none of whose sectors changed is valid and reads as before. */
  lemma Unmoved(n: Inode, v: Volume, v': Volume)
    requires DirOk(n, v) && VolumeOk(v') && SameOn(v.disk, v'.disk, OwnedOf(n, v)) && OwnedOf(n, v) <= v'.used
    ensures DirOk(n, v') && OwnedOf(n, v') == OwnedOf(n, v) && RowsOf(n, v') == RowsOf(n, v)
  {
    SameRows(n, v.disk, v'.disk);
    if n.sectors[DIRECT] != 0 {
      TableStillUsed(n, n, v.disk, v'.disk);
    }
  }

  // ------------------------------------------------------- a partition of them

  datatype System = System(dirs: seq<Inode>, vol: Volume)

  ghost function Owneds(sys: System): (r: seq<set<nat>>)
    ensures |r| == |sys.dirs| && forall i :: 0 <= i < |r| ==> r[i] == OwnedOf(sys.dirs[i], sys.vol)
  {
    seq(|sys.dirs|, i requires 0 <= i < |sys.dirs| => OwnedOf(sys.dirs[i], sys.vol))
  }

  /** A partition as its users see it: one finite map per directory. */
  ghost function Maps(sys: System): (r: seq<map<string, DirEntry>>)
    ensures |r| == |sys.dirs| && forall i :: 0 <= i < |r| ==> r[i] == EntriesOf(sys.dirs[i], sys.vol)
  {
    seq(|sys.dirs|, i requires 0 <= i < |sys.dirs| => EntriesOf(sys.dirs[i], sys.vol))
  }

  /** Block conservation: the bitmap marks exactly `rest` and the owned blocks, each owned once. */
  ghost predicate Accounts(os: seq<set<nat>>, used: set<nat>, rest: set<nat>) {
    rest <= used && (forall i :: 0 <= i < |os| ==> os[i] <= used && os[i] !! rest) &&
    (forall i, j :: 0 <= i < j < |os| ==> os[i] !! os[j]) &&
    forall b :: b in used && b !in rest ==> exists i :: 0 <= i < |os| && b in os[i]
  }

  lemma AccountsUpdate(os: seq<set<nat>>, used: set<nat>, rest: set<nat>, k: nat, o': set<nat>, used': set<nat>)
    requires Accounts(os, used, rest) && k < |os| && o' <= used' && used' - o' == used - os[k]
    ensures Accounts(os[k := o'], used', rest)
  {
    var os' := os[k := o'];
    forall i | 0 <= i < |os| && i != k
      ensures os'[i] == os[i] && os[i] !! os[k] && os[i] <= used' - o'
    {
    }
    forall b | b in used' && b !in rest
      ensures exists i :: 0 <= i < |os'| && b in os'[i]
    {
      if b in o' {
        assert b in os'[k];
      } else {
        assert b in used' - o';
        var i :| 0 <= i < |os| && b in os[i];
        assert b in os'[i];
      }
    }
    assert rest <= used' - o';
  }

  ghost predicate SysInv(sys: System, rest: set<nat>) {
    VolumeOk(sys.vol) && (forall i :: 0 <= i < |sys.dirs| ==> DirOk(sys.dirs[i], sys.vol)) &&
    Accounts(Owneds(sys), sys.vol.used, rest)
  }

  ghost predicate SysAllowed(sys: System, k: nat, c: Call) {
    k < |sys.dirs| && Allowed(sys.dirs[k], sys.vol, c)
  }

  function Step(sys: System, k: nat, c: Call): System
    requires k < |sys.dirs| && Readable(sys.dirs[k], sys.vol.disk)
  {
    var (n', v') := Act(sys.dirs[k], sys.vol, c);
    System(sys.dirs[k := n'], v')
  }

  /** A call on one directory is nothing at all to another one: same inode, same slots, same blocks. */
  lemma Bystander(sys: System, rest: set<nat>, k: nat, c: Call, j: nat)
    requires SysInv(sys, rest) && SysAllowed(sys, k, c) && j < |sys.dirs| && j != k
    ensures var sys' := Step(sys, k, c);
            sys'.dirs[j] == sys.dirs[j] && DirOk(sys.dirs[j], sys'.vol) &&
            OwnedOf(sys.dirs[j], sys'.vol) == OwnedOf(sys.dirs[j], sys.vol) &&
            RowsOf(sys.dirs[j], sys'.vol) == RowsOf(sys.dirs[j], sys.vol)
  {
    CallKeeps(sys.dirs[k], sys.vol, c);
    var os := Owneds(sys);
    assert os[j] !! os[k] && os[j] <= sys.vol.used;
    Unmoved(sys.dirs[j], sys.vol, Step(sys, k, c).vol);
  }

  lemma StepOwneds(sys: System, rest: set<nat>, k: nat, c: Call)
    requires SysInv(sys, rest) && SysAllowed(sys, k, c)
    ensures var sys' := Step(sys, k, c); Owneds(sys') == Owneds(sys)[k := OwnedOf(sys'.dirs[k], sys'.vol)]
  {
    forall j | 0 <= j < |sys.dirs| && j != k
      ensures Owneds(Step(sys, k, c))[j] == Owneds(sys)[j]
    {
      Bystander(sys, rest, k, c, j);
    }
  }

  lemma StepAccounts(sys: System, rest: set<nat>, k: nat, c: Call)
    requires SysInv(sys, rest) && SysAllowed(sys, k, c)
    ensures var sys' := Step(sys, k, c); Accounts(Owneds(sys'), sys'.vol.used, rest)
  {
    var (n', v') := Act(sys.dirs[k], sys.vol, c);
    CallKeeps(sys.dirs[k], sys.vol, c);
    StepOwneds(sys, rest, k, c);
    AccountsUpdate(Owneds(sys), sys.vol.used, rest, k, OwnedOf(n', v'), v'.used);
  }

  lemma MapUnmoved(sys: System, rest: set<nat>, k: nat, c: Call, j: nat)
    requires SysInv(sys, rest) && SysAllowed(sys, k, c) && j < |sys.dirs| && j != k
    ensures var sys' := Step(sys, k, c);
            j < |sys'.dirs| && EntriesOf(sys'.dirs[j], sys'.vol) == EntriesOf(sys.dirs[j], sys.vol)
  {
    Bystander(sys, rest, k, c, j);
  }

  lemma MapsChange(sys: System, sys': System, k: nat)
    requires k < |sys.dirs| == |sys'.dirs|
    requires forall j :: 0 <= j < |sys.dirs| && j != k ==> EntriesOf(sys'.dirs[j], sys'.vol) == EntriesOf(sys.dirs[j], sys.vol)
    ensures Maps(sys') == Maps(sys)[k := EntriesOf(sys'.dirs[k], sys'.vol)]
  {
  }

  lemma StepMaps(sys: System, rest: set<nat>, k: nat, c: Call)
    requires SysInv(sys, rest) && SysAllowed(sys, k, c)
    ensures var sys' := Step(sys, k, c); Maps(sys') == Maps(sys)[k := EntriesOf(sys'.dirs[k], sys'.vol)]
  {
    var sys' := Step(sys, k, c);
    forall j | 0 <= j < |sys.dirs| && j != k
      ensures EntriesOf(sys'.dirs[j], sys'.vol) == EntriesOf(sys.dirs[j], sys.vol)
    {
      MapUnmoved(sys, rest, k, c, j);
    }
    MapsChange(sys, sys', k);
  }

  lemma StepKeepsSysInv(sys: System, rest: set<nat>, k: nat, c: Call)
    requires SysInv(sys, rest) && SysAllowed(sys, k, c)
    ensures SysInv(Step(sys, k, c), rest) && SameOn(sys.vol.disk, Step(sys, k, c).vol.disk, rest)
  {
    var sys' := Step(sys, k, c);
    StepAccounts(sys, rest, k, c);
    CallKeeps(sys.dirs[k], sys.vol, c);
    forall j | 0 <= j < |sys'.dirs|
      ensures DirOk(sys'.dirs[j], sys'.vol)
    {
      if j != k {
        Bystander(sys, rest, k, c, j);
      }
    }
    assert rest <= sys.vol.used - Owneds(sys)[k];
  }

  // --------------------------------------------------------------------- runs

  datatype Event = Event(dir: nat, call: Call)

  /** Every event is an allowed call in the state it finds. */
  ghost predicate RunOk(sys: System, es: seq<Event>)
    decreases es
  {
    es == [] || (SysAllowed(sys, es[0].dir, es[0].call) && RunOk(Step(sys, es[0].dir, es[0].call), es[1..]))
  }

  ghost function Run(sys: System, es: seq<Event>): System
    requires RunOk(sys, es)
    decreases es
  {
    if es == [] then sys else Run(Step(sys, es[0].dir, es[0].call), es[1..])
  }

  /** Which insertions of the run found a block. */
  ghost function Outcomes(sys: System, es: seq<Event>): (r: seq<bool>)
    requires RunOk(sys, es)
    ensures |r| == |es|
    decreases es
  {
    if es == [] then []
    else [Stores(sys.dirs[es[0].dir], sys.vol, es[0].call)] + Outcomes(Step(sys, es[0].dir, es[0].call), es[1..])
  }

  ghost function SpecRun(m: seq<map<string, DirEntry>>, es: seq<Event>, stored: seq<bool>): seq<map<string, DirEntry>>
    requires |stored| == |es|
    decreases es
  {
    if es == [] || es[0].dir >= |m| then m
    else SpecRun(m[es[0].dir := SpecCall(m[es[0].dir], es[0].call, stored[0])], es[1..], stored[1..])
  }

  /** Over every run of allowed insertions and deletions, failed insertions included, on any
      directories of the partition: all directories stay valid and share no block, the bitmap marks
      exactly their blocks and `rest`, no sector of `rest` changes, and the directories are the
      finite maps that the successful calls describe. */
  lemma {:induction false} RunsRefineMaps(sys: System, rest: set<nat>, es: seq<Event>)
    requires SysInv(sys, rest) && RunOk(sys, es)
    ensures SysInv(Run(sys, es), rest)
    ensures SameOn(sys.vol.disk, Run(sys, es).vol.disk, rest)
    ensures Maps(Run(sys, es)) == SpecRun(Maps(sys), es, Outcomes(sys, es))
    decreases es
  {
    if es != [] {
      var k, c := es[0].dir, es[0].call;
      var sys' := Step(sys, k, c);
      StepKeepsSysInv(sys, rest, k, c);
      StepMaps(sys, rest, k, c);
      CallRefines(sys.dirs[k], sys.vol, c);
      RunsRefineMaps(sys', rest, es[1..]);
      assert Outcomes(sys, es)[1..] == Outcomes(sys', es[1..]);
    }
  }

  // -------------------------------------------------- what a user sees of a run

  /** An insertion succeeds exactly if the partition has the blocks it needs. */
  lemma StoresIff(n: Inode, v: Volume, e: DirEntry)
    requires Readable(n, v.disk)
    ensures Stores(n, v, Insert(e)) <==> !Exhausted(n, v)
  {
    FailsIffExhausted(n, v, e);
  }

  ghost predicate Bound(sys: System, k: nat, x: DirEntry) {
    k < |sys.dirs| && x.name in Maps(sys)[k] && Maps(sys)[k][x.name] == x
  }

  /** No event of the run removes that inode from directory k. */
  predicate Kept(es: seq<Event>, k: nat, ino: nat) {
    forall i :: 0 <= i < |es| && es[i].dir == k ==> es[i].call != Remove(ino)
  }

  lemma NamesKnown(n: Inode, v: Volume, x: DirEntry)
    requires DirOk(n, v) && x.name in EntriesOf(n, v) && EntriesOf(n, v)[x.name] == x
    ensures x in List(n, v.disk)
  {
    ToMapExact(List(n, v.disk));
  }

  lemma BoundStep(sys: System, rest: set<nat>, k: nat, x: DirEntry, j: nat, c: Call)
    requires SysInv(sys, rest) && SysAllowed(sys, j, c) && Bound(sys, k, x) && (j == k ==> c != Remove(x.ino))
    ensures Bound(Step(sys, j, c), k, x)
  {
    StepMaps(sys, rest, j, c);
    if j == k {
      CallRefines(sys.dirs[k], sys.vol, c);
      NamesKnown(sys.dirs[k], sys.vol, x);
    }
  }

  lemma {:induction false} StaysBound(sys: System, rest: set<nat>, es: seq<Event>, k: nat, x: DirEntry)
    requires SysInv(sys, rest) && RunOk(sys, es) && Bound(sys, k, x) && Kept(es, k, x.ino)
    ensures Bound(Run(sys, es), k, x)
    decreases es
  {
    if es != [] {
      StepKeepsSysInv(sys, rest, es[0].dir, es[0].call);
      BoundStep(sys, rest, k, x, es[0].dir, es[0].call);
      StaysBound(Step(sys, es[0].dir, es[0].call), rest, es[1..], k, x);
    }
  }

  /** An entry inserted while there is room is found by name after any further calls on any
      directories, as long as none of them deletes its inode from this one. */
  lemma InsertedIsFound(sys: System, rest: set<nat>, k: nat, e: DirEntry, es: seq<Event>)
    requires SysInv(sys, rest) && SysAllowed(sys, k, Insert(e)) && !Exhausted(sys.dirs[k], sys.vol)
    requires RunOk(Step(sys, k, Insert(e)), es) && Kept(es, k, e.ino)
    ensures var sys' := Run(Step(sys, k, Insert(e)), es);
            k < |sys'.dirs| && Readable(sys'.dirs[k], sys'.vol.disk) &&
            Find(AllSlots(Rows(sys'.dirs[k], sys'.vol.disk)), e.name) == Some(e)
  {
    var sys1 := Step(sys, k, Insert(e));
    StepKeepsSysInv(sys, rest, k, Insert(e));
    StepMaps(sys, rest, k, Insert(e));
    CallRefines(sys.dirs[k], sys.vol, Insert(e));
    StoresIff(sys.dirs[k], sys.vol, e);
    StaysBound(sys1, rest, es, k, e);
    RunsRefineMaps(sys1, rest, es);
    FoundInMap(Run(sys1, es), rest, k, e);
  }

  lemma FoundInMap(sys: System, rest: set<nat>, k: nat, e: DirEntry)
    requires SysInv(sys, rest) && Bound(sys, k, e) && e.name != ""
    ensures Readable(sys.dirs[k], sys.vol.disk) && Find(AllSlots(Rows(sys.dirs[k], sys.vol.disk)), e.name) == Some(e)
  {
    SearchIsLookup(sys.dirs[k], sys.vol, Others(sys.dirs[k], sys.vol), e.name);
  }

  ghost predicate Gone(sys: System, k: nat, ino: nat) {
    k < |sys.dirs| && forall s :: s in Maps(sys)[k] ==> !Binds(Maps(sys)[k], s, ino)
  }

  predicate NotInserted(es: seq<Event>, k: nat, ino: nat) {
    forall i :: 0 <= i < |es| && es[i].dir == k && es[i].call.Insert? ==> es[i].call.e.ino != ino
  }

  lemma GoneStep(sys: System, rest: set<nat>, k: nat, ino: nat, j: nat, c: Call)
    requires SysInv(sys, rest) && SysAllowed(sys, j, c)
    requires k < |sys.dirs| && (Gone(sys, k, ino) || (j == k && c == Remove(ino)))
    requires j == k && c.Insert? ==> c.e.ino != ino
    ensures Gone(Step(sys, j, c), k, ino)
  {
    StepMaps(sys, rest, j, c);
    if j == k {
      CallRefines(sys.dirs[k], sys.vol, c);
    }
  }

  lemma {:induction false} StaysGone(sys: System, rest: set<nat>, es: seq<Event>, k: nat, ino: nat)
    requires SysInv(sys, rest) && RunOk(sys, es) && Gone(sys, k, ino) && NotInserted(es, k, ino)
    ensures Gone(Run(sys, es), k, ino)
    decreases es
  {
    if es != [] {
      StepKeepsSysInv(sys, rest, es[0].dir, es[0].call);
      GoneStep(sys, rest, k, ino, es[0].dir, es[0].call);
      StaysGone(Step(sys, es[0].dir, es[0].call), rest, es[1..], k, ino);
    }
  }

  /** After a deletion no name of the directory leads to that inode until it is inserted again. */
  lemma RemovedStaysGone(sys: System, rest: set<nat>, k: nat, ino: nat, es: seq<Event>)
    requires SysInv(sys, rest) && SysAllowed(sys, k, Remove(ino))
    requires RunOk(Step(sys, k, Remove(ino)), es) && NotInserted(es, k, ino)
    ensures Gone(Run(Step(sys, k, Remove(ino)), es), k, ino)
  {
    StepKeepsSysInv(sys, rest, k, Remove(ino));
    GoneStep(sys, rest, k, ino, k, Remove(ino));
    StaysGone(Step(sys, k, Remove(ino)), rest, es, k, ino);
  }
}
