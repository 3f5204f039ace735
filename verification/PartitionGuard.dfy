/**
 The guard of partition_scan against a ninth logical partition leaves only the innermost call. This
 module runs the scan over chains of EBRs whose logical and link entries stand in any order and
 says exactly on which of them a write past logic_parts happens.
 */
module PartitionGuard {
  import opened PartitionScan

  /** One logical entry at place p, the link at place q (q == 4: none), the rest empty. */
  predicate Placed(b: Boot, p: nat, q: nat) {
    |b| == 4 && p < 4 && q <= 4 && p != q && IsPart(b[p]) && (q < 4 ==> IsLink(b[q])) &&
    forall i :: 0 <= i < 4 && i != p && i != q ==> b[i].fs == 0
  }

  /** A finite chain of EBRs with the places of their entries; only the last one has no link. */
  ghost predicate ChainOk(disk: map<nat, Boot>, base: nat, chain: seq<nat>, ps: seq<nat>, qs: seq<nat>) {
    |chain| > 0 && |ps| == |qs| == |chain| &&
    (forall k :: 0 <= k < |chain| ==> chain[k] in disk && Placed(disk[chain[k]], ps[k], qs[k]) && (qs[k] == 4 <==> k == |chain| - 1)) &&
    forall k :: 0 <= k < |chain| - 1 ==> chain[k + 1] == disk[chain[k]][qs[k]].start + base
  }

  lemma ChainTail(disk: map<nat, Boot>, base: nat, chain: seq<nat>, ps: seq<nat>, qs: seq<nat>)
    requires ChainOk(disk, base, chain, ps, qs) && |chain| > 1
    ensures ChainOk(disk, base, chain[1..], ps[1..], qs[1..])
  {
  }

  datatype Outcome = Done(lNo: nat) | Overflow

  /** partition_scan from entry i of the first EBR of the chain, with l_no logicals stored so far. */
  function Scan(disk: map<nat, Boot>, chain: seq<nat>, i: nat, lNo: nat): Outcome
    requires chain != [] && i <= 4 && chain[0] in disk && |disk[chain[0]]| == 4
    requires forall k :: 0 <= k < |chain| ==> chain[k] in disk && |disk[chain[k]]| == 4
    decreases |chain|, 4 - i
  {
    if i == 4 then Done(lNo)
    else
      var e := disk[chain[0]][i];
      if IsLink(e) && |chain| > 1 then
        match Scan(disk, chain[1..], 0, lNo)
        case Overflow => Overflow
        case Done(l) => Scan(disk, chain, i + 1, l)
      else if IsPart(e) then
        if lNo >= MAX_LOGIC then Overflow
        else if lNo + 1 >= MAX_LOGIC then Done(lNo + 1)
        else Scan(disk, chain, i + 1, lNo + 1)
      else Scan(disk, chain, i + 1, lNo)
  }

  /** Empty entries are passed over. */
  lemma {:induction false} SkipTo(disk: map<nat, Boot>, chain: seq<nat>, i: nat, j: nat, lNo: nat)
    requires chain != [] && i <= j <= 4
    requires forall k :: 0 <= k < |chain| ==> chain[k] in disk && |disk[chain[k]]| == 4
    requires forall m :: i <= m < j ==> disk[chain[0]][m].fs == 0
    ensures Scan(disk, chain, i, lNo) == Scan(disk, chain, j, lNo)
    decreases j - i
  {
    if i < j {
      SkipTo(disk, chain, i + 1, j, lNo);
    }
  }

  /** The logical entry comes first: store, then follow the link unless the array is full. */
  lemma LogicalFirst(disk: map<nat, Boot>, base: nat, chain: seq<nat>, ps: seq<nat>, qs: seq<nat>, lNo: nat)
    requires ChainOk(disk, base, chain, ps, qs) && ps[0] < qs[0] && lNo < MAX_LOGIC
    ensures Scan(disk, chain, 0, lNo) ==
              if lNo + 1 == MAX_LOGIC || |chain| == 1 then Done(lNo + 1) else Scan(disk, chain[1..], 0, lNo + 1)
  {
    var p, q := ps[0], qs[0];
    SkipTo(disk, chain, 0, p, lNo);
    SkipTo(disk, chain, p + 1, q, lNo + 1);
    if |chain| > 1 {
      var r := Scan(disk, chain[1..], 0, lNo + 1);
      if r.Done? {
        SkipTo(disk, chain, q + 1, 4, r.lNo);
      }
    }
  }

  /** The link comes first: the rest of the chain is stored before this one. */
  lemma LinkFirst(disk: map<nat, Boot>, base: nat, chain: seq<nat>, ps: seq<nat>, qs: seq<nat>, lNo: nat)
    requires ChainOk(disk, base, chain, ps, qs) && qs[0] < ps[0]
    ensures |chain| > 1
    ensures Scan(disk, chain, 0, lNo) ==
              match Scan(disk, chain[1..], 0, lNo)
              case Overflow => Overflow
              case Done(l) => if l >= MAX_LOGIC then Overflow else Done(l + 1)
  {
    var p, q := ps[0], qs[0];
    SkipTo(disk, chain, 0, q, lNo);
    var r := Scan(disk, chain[1..], 0, lNo);
    if r.Done? {
      SkipTo(disk, chain, q + 1, p, r.lNo);
      SkipTo(disk, chain, p + 1, 4, r.lNo + 1);
    }
  }

  ghost predicate AllLogicalFirst(ps: seq<nat>, qs: seq<nat>, n: nat)
    requires |ps| == |qs|
  {
    forall k :: 0 <= k < n && k < |ps| ==> ps[k] < qs[k]
  }

  /** What a scan of a whole chain comes to. */
  lemma {:induction false} ScanExact(disk: map<nat, Boot>, base: nat, chain: seq<nat>, ps: seq<nat>, qs: seq<nat>, lNo: nat)
    requires ChainOk(disk, base, chain, ps, qs) && lNo < MAX_LOGIC
    ensures Scan(disk, chain, 0, lNo) ==
              if lNo + |chain| <= MAX_LOGIC then Done(lNo + |chain|)
              else if AllLogicalFirst(ps, qs, MAX_LOGIC - lNo) then Done(MAX_LOGIC)
              else Overflow
    decreases |chain|
  {
    if ps[0] < qs[0] {
      LogicalFirst(disk, base, chain, ps, qs, lNo);
      if lNo + 1 < MAX_LOGIC && |chain| > 1 {
        ChainTail(disk, base, chain, ps, qs);
        ScanExact(disk, base, chain[1..], ps[1..], qs[1..], lNo + 1);
        FirstsShift(ps, qs, MAX_LOGIC - lNo);
      }
    } else {
      LinkFirst(disk, base, chain, ps, qs, lNo);
      ChainTail(disk, base, chain, ps, qs);
      ScanExact(disk, base, chain[1..], ps[1..], qs[1..], lNo);
    }
  }

  lemma FirstsShift(ps: seq<nat>, qs: seq<nat>, n: nat)
    requires |ps| == |qs| && |ps| > 0 && n > 0 && ps[0] < qs[0]
    ensures AllLogicalFirst(ps, qs, n) <==> AllLogicalFirst(ps[1..], qs[1..], n - 1)
  {
    if AllLogicalFirst(ps[1..], qs[1..], n - 1) {
      forall k | 0 <= k < n && k < |ps|
        ensures ps[k] < qs[k]
      {
        if k > 0 {
          assert ps[1..][k - 1] < qs[1..][k - 1];
        }
      }
    }
  }

  /** A write past logic_parts happens if and only if the chain has more than eight EBRs and one of
      the first eight has its link before its logical partition. */
  lemma GuardExact(disk: map<nat, Boot>, base: nat, chain: seq<nat>, ps: seq<nat>, qs: seq<nat>)
    requires ChainOk(disk, base, chain, ps, qs)
    ensures Scan(disk, chain, 0, 0) == Overflow <==>
              |chain| > MAX_LOGIC && exists k :: 0 <= k < MAX_LOGIC && qs[k] < ps[k]
  {
    ScanExact(disk, base, chain, ps, qs, 0);
    if |chain| > MAX_LOGIC && !AllLogicalFirst(ps, qs, MAX_LOGIC) {
      var k :| 0 <= k < MAX_LOGIC && k < |ps| && !(ps[k] < qs[k]);
      assert Placed(disk[chain[k]], ps[k], qs[k]);
      assert qs[k] < ps[k];
    }
  }

  // ---------------------------------------------------------- a concrete disk

  const NINE: seq<nat> := seq(9, k => k + 1)

  /** Nine EBRs at addresses 1 to 9, each with its link first. */
  const NINE_DISK: map<nat, Boot> := map a: nat | 1 <= a <= 9 ::
    if a < 9 then [Entry(EXTENDED, a, 1), Entry(0x66, 100, 10), Entry(0, 0, 0), Entry(0, 0, 0)]
    else [Entry(0, 0, 0), Entry(0x66, 100, 10), Entry(0, 0, 0), Entry(0, 0, 0)]

  /** The outermost of the nine calls stores the ninth logical partition behind the array. */
  lemma NineOverflow()
    ensures var ps, qs := seq(9, k => 1), seq(9, k => if k < 8 then 0 else 4);
            ChainOk(NINE_DISK, 1, NINE, ps, qs) && Scan(NINE_DISK, NINE, 0, 0) == Overflow
  {
    var ps, qs := seq(9, k => 1), seq(9, k => if k < 8 then 0 else 4);
    GuardExact(NINE_DISK, 1, NINE, ps, qs);
    assert qs[0] < ps[0];
  }
}
