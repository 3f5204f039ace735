/**
 partition_scan of device/ide.c: the walk over the MBR and the chain of EBRs that fills the
 partition arrays and the partition list through global counters.
 */
module PartitionScan {
  import opened Common

  const EXTENDED: nat := 5
  const MAX_LOGIC: nat := 8

  /** struct partition_table_entry, the fields the scan looks at. */
  datatype Entry = Entry(fs: nat, start: nat, count: nat)

  type Boot = seq<Entry>

  /** A partition found; `number` is the one in its name (sdb1, sdb5, ...). */
  datatype Part = Part(start: nat, count: nat, number: nat)

  // ------------------------------------------------------------------- shapes

  predicate IsPart(e: Entry) { e.fs != 0 && e.fs != EXTENDED }

  predicate IsLink(e: Entry) { e.fs == EXTENDED }

  /** (logical, link or empty, empty, empty) */
  predicate EbrShape(b: Boot) {
    |b| == 4 && IsPart(b[0]) && (IsLink(b[1]) || b[1].fs == 0) && b[2].fs == 0 && b[3].fs == 0
  }

  /** The EBR at `a` links to the one at `c`; links are relative to the extended partition. */
  predicate LinksTo(disk: map<nat, Boot>, base: nat, a: nat, c: nat) {
    a in disk && |disk[a]| == 4 && IsLink(disk[a][1]) && c == disk[a][1].start + base
  }

  /** A set of EBR addresses that no link leaves; chains may be cyclic. */
  ghost predicate Closed(disk: map<nat, Boot>, base: nat, ebrs: set<nat>) {
    0 !in ebrs && (forall a :: a in ebrs ==> a in disk && a <= MAX_LBA && EbrShape(disk[a])) &&
    forall a, c {:trigger LinksTo(disk, base, a, c)} :: a in ebrs && LinksTo(disk, base, a, c) ==> c in ebrs
  }

  ghost predicate MbrShape(disk: map<nat, Boot>, ebrs: set<nat>) {
    0 in disk && |disk[0]| == 4 &&
    (forall i, j :: 0 <= i < j < 4 && IsLink(disk[0][i]) ==> !IsLink(disk[0][j])) && Walkable(disk, ebrs, disk[0])
  }

  /** Every extended entry starts a chain of well-formed EBRs. */
  ghost predicate Walkable(disk: map<nat, Boot>, ebrs: set<nat>, es: seq<Entry>) {
    forall i :: 0 <= i < |es| && IsLink(es[i]) ==> es[i].start in ebrs && Closed(disk, es[i].start, ebrs)
  }

  // ------------------------------------------------------------ specification

  /** The logical partitions from the EBR at `lba` on, while `n` of them are already known. */
  ghost function Logicals(disk: map<nat, Boot>, base: nat, ebrs: set<nat>, lba: nat, n: nat): (r: seq<Part>)
    requires Closed(disk, base, ebrs) && lba in ebrs && n < MAX_LOGIC
    ensures 1 <= |r| && n + |r| <= MAX_LOGIC
    decreases MAX_LOGIC - n
  {
    var b := disk[lba];
    [Part(lba + b[0].start, b[0].count, n + 5)] +
    if n + 1 < MAX_LOGIC && LinksTo(disk, base, lba, b[1].start + base)
    then Logicals(disk, base, ebrs, b[1].start + base, n + 1) else []
  }

  /** The k-th EBR of the chain that starts at `base`, if the chain is that long. */
  ghost function EbrAt(disk: map<nat, Boot>, base: nat, ebrs: set<nat>, k: nat): (r: Option<nat>)
    requires Closed(disk, base, ebrs) && base in ebrs
    ensures r.Some? ==> r.value in ebrs
  {
    if k == 0 then Some(base)
    else
      match EbrAt(disk, base, ebrs, k - 1)
      case None => None
      case Some(a) => if LinksTo(disk, base, a, disk[a][1].start + base) then Some(disk[a][1].start + base) else None
  }

  /** The next EBR is where a second entry of type 5 points, counted from the start of the extended
      partition, not from this EBR. */
  lemma ChainNext(disk: map<nat, Boot>, base: nat, ebrs: set<nat>, k: nat)
    requires Closed(disk, base, ebrs) && base in ebrs
    ensures EbrAt(disk, base, ebrs, 0) == Some(base)
    ensures match EbrAt(disk, base, ebrs, k)
            case None => EbrAt(disk, base, ebrs, k + 1) == None
            case Some(a) => EbrAt(disk, base, ebrs, k + 1) == if disk[a][1].fs == 5 then Some(disk[a][1].start + base) else None
  {
  }

  /** Everything the scan appends to the list, in order; `p` primaries are already known. */
  ghost function Found(disk: map<nat, Boot>, ebrs: set<nat>, es: seq<Entry>, p: nat): seq<Part>
    requires Walkable(disk, ebrs, es)
  {
    if es == [] then []
    else if IsLink(es[0]) then Logicals(disk, es[0].start, ebrs, es[0].start, 0) + Found(disk, ebrs, es[1..], p)
    else if IsPart(es[0]) then [Part(es[0].start, es[0].count, p + 1)] + Found(disk, ebrs, es[1..], p + 1)
    else Found(disk, ebrs, es[1..], p)
  }

  lemma LogicalsStep(disk: map<nat, Boot>, base: nat, ebrs: set<nat>, lba: nat, n: nat)
    requires Closed(disk, base, ebrs) && lba in ebrs && n < MAX_LOGIC
    ensures var f, b := Logicals(disk, base, ebrs, lba, n), disk[lba];
            var next := b[1].start + base;
            f[0] == Part(lba + b[0].start, b[0].count, n + 5) &&
            if n + 1 < MAX_LOGIC && LinksTo(disk, base, lba, next)
            then next in ebrs && f[1..] == Logicals(disk, base, ebrs, next, n + 1) else |f| == 1
  {
  }

  /** The k-th logical found is the k-th EBR's, at its absolute address; the first eight are found. */
  lemma {:induction false} LogicalsAreTheChain(disk: map<nat, Boot>, base: nat, ebrs: set<nat>, k: nat)
    requires Closed(disk, base, ebrs) && base in ebrs
    ensures var f := Logicals(disk, base, ebrs, base, 0);
            (k < |f| <==> k < MAX_LOGIC && EbrAt(disk, base, ebrs, k).Some?) &&
            (k < |f| ==> var a := EbrAt(disk, base, ebrs, k).value;
                         f[k] == Part(a + disk[a][0].start, disk[a][0].count, k + 5))
  {
    if k < MAX_LOGIC {
      LogicalsFrom(disk, base, ebrs, k);
    }
  }

  lemma {:induction false} LogicalsFrom(disk: map<nat, Boot>, base: nat, ebrs: set<nat>, k: nat)
    requires Closed(disk, base, ebrs) && base in ebrs && k < MAX_LOGIC
    ensures FromThere(disk, base, ebrs, k)
  {
    if k > 0 {
      LogicalsFrom(disk, base, ebrs, k - 1);
      FromNext(disk, base, ebrs, k);
    }
  }

  /** The chain has a k-th EBR exactly if there is a k-th logical, and the rest is found from it. */
  ghost predicate FromThere(disk: map<nat, Boot>, base: nat, ebrs: set<nat>, k: nat)
    requires Closed(disk, base, ebrs) && base in ebrs && k < MAX_LOGIC
  {
    var f, a := Logicals(disk, base, ebrs, base, 0), EbrAt(disk, base, ebrs, k);
    (k < |f| <==> a.Some?) && (a.Some? ==> f[k..] == Logicals(disk, base, ebrs, a.value, k))
  }

  lemma FromNext(disk: map<nat, Boot>, base: nat, ebrs: set<nat>, k: nat)
    requires Closed(disk, base, ebrs) && base in ebrs && 0 < k < MAX_LOGIC && FromThere(disk, base, ebrs, k - 1)
    ensures FromThere(disk, base, ebrs, k)
  {
    var f, a := Logicals(disk, base, ebrs, base, 0), EbrAt(disk, base, ebrs, k - 1);
    if a.Some? {
      LogicalsStep(disk, base, ebrs, a.value, k - 1);
      assert f[k - 1..][1..] == f[k..];
    }
  }

  // ----------------------------------------------------------------- the scan

  class Scanner {
    const disk: map<nat, Boot>
    const primParts: array<Part>
    const logicParts: array<Part>
    var pNo: nat
    var lNo: nat
    var extBase: nat
    var list: seq<Part>

    ghost predicate Valid()
      reads this
    {
      primParts.Length == 4 && logicParts.Length == MAX_LOGIC && primParts != logicParts && pNo <= 4 && lNo <= MAX_LOGIC
    }

    constructor (disk: map<nat, Boot>)
      ensures Valid() && this.disk == disk && pNo == lNo == extBase == 0 && list == []
      ensures fresh(primParts) && fresh(logicParts)
    {
      this.disk := disk;
      var none := Part(0, 0, 0);
      primParts := new Part[4](i => none);
      logicParts := new Part[MAX_LOGIC](i => none);
      pNo, lNo, extBase, list := 0, 0, 0, [];
    }

    ghost function Prims(): seq<Part>
      requires Valid()
      reads this, primParts
    {
      primParts[..pNo]
    }

    ghost function Logics(): seq<Part>
      requires Valid()
      reads this, logicParts
    {
      logicParts[..lNo]
    }

    method AddLogic(p: Part)
      requires Valid() && lNo < MAX_LOGIC
      modifies this`lNo, this`list, logicParts
      ensures Valid() && lNo == old(lNo) + 1 && list == old(list) + [p] && Logics() == old(Logics()) + [p]
    {
      logicParts[lNo] := p;
      list := list + [p];
      lNo := lNo + 1;
    }

    method AddPrim(p: Part)
      requires Valid() && pNo < 4
      modifies this`pNo, this`list, primParts
      ensures Valid() && pNo == old(pNo) + 1 && list == old(list) + [p] && Prims() == old(Prims()) + [p]
    {
      primParts[pNo] := p;
      list := list + [p];
      pNo := pNo + 1;
    }

    /** partition_scan on a sector of the extended partition (ext_lba != 0, ext_lba_base set). The
        number of free places in logic_parts shrinks with every call, so it ends on a cyclic chain. */
    method ScanEbr(lba: nat, ghost ebrs: set<nat>)
      requires Valid() && lNo < MAX_LOGIC && Closed(disk, extBase, ebrs) && lba in ebrs
      modifies this`lNo, this`list, logicParts
      ensures Valid()
      ensures var f := old(Logicals(disk, extBase, ebrs, lba, lNo));
              list == old(list) + f && lNo == old(lNo) + |f| && Logics() == old(Logics()) + f
      decreases MAX_LOGIC - lNo
    {
      var table := disk[lba];
      var i := 0;
      ghost var n, found, logics := lNo, list, Logics();
      ghost var f := Logicals(disk, extBase, ebrs, lba, n);
      LogicalsStep(disk, extBase, ebrs, lba, n);
      while i < 4
        invariant Valid() && i <= 4
        invariant i <= 1 ==> lNo == n + i && lNo < MAX_LOGIC && list == found + f[..i] && Logics() == logics + f[..i]
        invariant i > 1 ==> lNo == n + |f| && list == found + f && Logics() == logics + f
      {
        var e := table[i];
        if e.fs == EXTENDED {
          assert i == 1 && LinksTo(disk, extBase, lba, e.start + extBase);
          ScanEbr(e.start + extBase, ebrs);
          ghost var tail := f[1..];
          assert f == f[..1] + tail;
          Assoc(found, f[..1], tail);
          Assoc(logics, f[..1], tail);
        } else if e.fs != 0 {
          assert i == 0 && f[..1] == [Part(lba + e.start, e.count, lNo + 5)];
          AddLogic(Part(lba + e.start, e.count, lNo + 5));
          if lNo >= MAX_LOGIC {
            assert f == f[..1];
            return;
          }
        } else if i == 1 {
          assert f == f[..1];
        }
        i := i + 1;
      }
    }

    /** One round of the loop over the MBR, with `es` the entries still to go. */
    method MbrEntry(e: Entry, ghost ebrs: set<nat>, ghost es: seq<Entry>)
      requires Valid() && pNo < 4 && es != [] && e == es[0] && (IsLink(e) ==> lNo == 0) && Walkable(disk, ebrs, es)
      modifies this, primParts, logicParts
      ensures Valid() && pNo == old(pNo) + if IsPart(e) then 1 else 0
      ensures list + Found(disk, ebrs, es[1..], pNo) == old(list + Found(disk, ebrs, es, pNo))
      ensures Prims() + Primaries(es[1..], pNo) == old(Prims() + Primaries(es, pNo))
      ensures if IsLink(e) then Logics() == Logicals(disk, e.start, ebrs, e.start, 0)
              else lNo == old(lNo) && Logics() == old(Logics())
    {
      if e.fs == EXTENDED {
        ghost var f := Logicals(disk, e.start, ebrs, e.start, 0);
        Assoc(list, f, Found(disk, ebrs, es[1..], pNo));
        extBase := e.start;
        assert Logics() == [];
        ScanEbr(e.start, ebrs);
      } else if e.fs != 0 {
        var p := Part(e.start, e.count, pNo + 1);
        Assoc(list, [p], Found(disk, ebrs, es[1..], pNo + 1));
        Assoc(Prims(), [p], Primaries(es[1..], pNo + 1));
        AddPrim(p);
      }
    }

    /** partition_scan on the MBR (ext_lba == 0). It panics exactly if all four entries are primary
        partitions; otherwise the list grows by what is found, in scan order. */
    method ScanMbr(ghost ebrs: set<nat>) returns (ok: bool)
      requires Valid() && pNo == lNo == extBase == 0 && MbrShape(disk, ebrs)
      modifies this, primParts, logicParts
      ensures Valid() && (ok <==> exists i :: 0 <= i < 4 && !IsPart(disk[0][i]))
      ensures ok ==> list == old(list) + Found(disk, ebrs, disk[0], 0)
      ensures ok ==> Prims() == Primaries(disk[0], 0) && Logics() == AllLogicals(disk, ebrs, disk[0])
    {
      var table := disk[0];
      var i := 0;
      while i < 4
        invariant Valid() && i <= 4 && pNo <= i && pNo < 4 && (pNo == i <==> forall j :: 0 <= j < i ==> IsPart(table[j]))
        invariant list + Found(disk, ebrs, table[i..], pNo) == old(list) + Found(disk, ebrs, table, 0)
        invariant Prims() + Primaries(table[i..], pNo) == Primaries(table, 0)
        invariant if exists j :: 0 <= j < i && IsLink(table[j]) then Logics() == AllLogicals(disk, ebrs, table)
                  else lNo == 0 && AllLogicals(disk, ebrs, table[i..]) == AllLogicals(disk, ebrs, table)
      {
        var e := table[i];
        assert table[i..][1..] == table[i + 1..];
        MbrEntry(e, ebrs, table[i..]);
        if pNo >= 4 {
          return false;
        }
        i := i + 1;
      }
      assert table[4..] == [];
      ok := true;
    }
  }

  /** The logical partitions of the first extended entry of a table. */
  ghost function AllLogicals(disk: map<nat, Boot>, ebrs: set<nat>, es: seq<Entry>): seq<Part>
    requires Walkable(disk, ebrs, es)
  {
    if es == [] then []
    else if IsLink(es[0]) then Logicals(disk, es[0].start, ebrs, es[0].start, 0)
    else AllLogicals(disk, ebrs, es[1..])
  }

  /** The primary partitions of a table, numbered from p + 1. */
  ghost function Primaries(es: seq<Entry>, p: nat): seq<Part> {
    if es == [] then []
    else if IsPart(es[0]) then [Part(es[0].start, es[0].count, p + 1)] + Primaries(es[1..], p + 1)
    else Primaries(es[1..], p)
  }

  // ------------------------------------------------------------- what is found

  /** How many of the first i entries are partitions. */
  function PartsBefore(es: seq<Entry>, i: nat): nat
    requires i <= |es|
  {
    if i == 0 then 0 else PartsBefore(es, i - 1) + if IsPart(es[i - 1]) then 1 else 0
  }

  lemma {:induction false} PartsTail(es: seq<Entry>, i: nat)
    requires 0 < i <= |es|
    ensures PartsBefore(es, i) == PartsBefore(es[1..], i - 1) + if IsPart(es[0]) then 1 else 0
  {
    if i > 1 {
      PartsTail(es, i - 1);
    }
  }

  /** The entry behind k other primaries is primary k + 1, at its own start and of its own size; there
      are no others. */
  lemma {:induction false} PrimaryAt(es: seq<Entry>, p: nat, i: nat)
    requires i < |es| && IsPart(es[i])
    ensures var k := PartsBefore(es, i);
            k < |Primaries(es, p)| && Primaries(es, p)[k] == Part(es[i].start, es[i].count, p + k + 1)
  {
    if i > 0 {
      PrimaryAt(es[1..], if IsPart(es[0]) then p + 1 else p, i - 1);
      PartsTail(es, i);
    }
  }

  lemma {:induction false} PrimariesCount(es: seq<Entry>, p: nat)
    ensures |Primaries(es, p)| == PartsBefore(es, |es|)
  {
    if es != [] {
      PrimariesCount(es[1..], if IsPart(es[0]) then p + 1 else p);
      PartsTail(es, |es|);
    }
  }

  lemma {:induction false} FoundNoLink(disk: map<nat, Boot>, ebrs: set<nat>, es: seq<Entry>, p: nat)
    requires Walkable(disk, ebrs, es) && forall j :: 0 <= j < |es| ==> !IsLink(es[j])
    ensures Found(disk, ebrs, es, p) == Primaries(es, p) && AllLogicals(disk, ebrs, es) == []
  {
    if es != [] {
      FoundNoLink(disk, ebrs, es[1..], if IsPart(es[0]) then p + 1 else p);
    }
  }

  /** With the extended entry at place i: the primaries before it, its logicals, the primaries after
      it, numbered on. */
  lemma {:induction false} FoundAround(disk: map<nat, Boot>, ebrs: set<nat>, es: seq<Entry>, p: nat, i: nat)
    requires Walkable(disk, ebrs, es) && i < |es| && forall j :: 0 <= j < |es| ==> (IsLink(es[j]) <==> j == i)
    ensures var f := Logicals(disk, es[i].start, ebrs, es[i].start, 0);
            Found(disk, ebrs, es, p) == Primaries(es[..i], p) + f + Primaries(es[i + 1..], p + PartsBefore(es, i)) &&
            AllLogicals(disk, ebrs, es) == f
  {
    var f := Logicals(disk, es[i].start, ebrs, es[i].start, 0);
    if i == 0 {
      FoundNoLink(disk, ebrs, es[1..], p);
      assert es[..0] == [] && [] + f == f;
    } else {
      var p' := if IsPart(es[0]) then p + 1 else p;
      FoundAround(disk, ebrs, es[1..], p', i - 1);
      PartsTail(es, i);
      assert es[1..][i..] == es[i + 1..] && es[..i][1..] == es[1..][..i - 1];
      var head := Primaries(es[1..][..i - 1], p');
      if IsPart(es[0]) {
        var x := [Part(es[0].start, es[0].count, p + 1)];
        Assoc(x, head, f);
        Assoc(x, head + f, Primaries(es[i + 1..], p + PartsBefore(es, i)));
      }
    }
  }
}
