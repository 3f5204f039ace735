/**
 device/ioqueue.c: the 64-byte ring, and the queue as a step system with any number of threads in
 ioq_getchar and ioq_putchar and with an interrupt handler that offers bytes.
 */
module IoQueue {
  import opened Common

  const SIZE: nat := 64   // bufsize

  // ----------------------------------------------------------------- the ring

  datatype Ring = Ring(buf: seq<char>, head: nat, tail: nat)

  predicate RingOk(r: Ring) { |r.buf| == SIZE && r.head < SIZE && r.tail < SIZE }

  function NextPos(p: nat): nat { (p + 1) % SIZE }

  predicate Full(r: Ring) { NextPos(r.head) == r.tail }

  predicate Empty(r: Ring) { r.head == r.tail }

  function Len(r: Ring): nat
    requires RingOk(r)
  {
    if r.head >= r.tail then r.head - r.tail else r.head + SIZE - r.tail
  }

  /** The bytes from tail to head, modulo 64. */
  function Contents(r: Ring): (s: seq<char>)
    requires RingOk(r)
    ensures |s| == Len(r) && forall i :: 0 <= i < |s| ==> s[i] == r.buf[(r.tail + i) % SIZE]
  {
    seq(Len(r), i requires 0 <= i < Len(r) => r.buf[(r.tail + i) % SIZE])
  }

  function PutByte(r: Ring, c: char): Ring
    requires RingOk(r)
  {
    Ring(r.buf[r.head := c], NextPos(r.head), r.tail)
  }

  function DropByte(r: Ring): Ring { r.(tail := NextPos(r.tail)) }

  /** Full and empty are exactly 63 and 0 bytes: one place always stays free. */
  lemma CapacityExact(r: Ring)
    requires RingOk(r)
    ensures (Full(r) <==> |Contents(r)| == SIZE - 1) && (Empty(r) <==> Contents(r) == []) && |Contents(r)| <= SIZE - 1
  {
  }

  lemma PutAppends(r: Ring, c: char)
    requires RingOk(r) && !Full(r)
    ensures RingOk(PutByte(r, c)) && Contents(PutByte(r, c)) == Contents(r) + [c]
  {
    var r' := PutByte(r, c);
    assert Len(r') == Len(r) + 1;
    assert (r.tail + Len(r)) % SIZE == r.head;
    forall i | 0 <= i < Len(r)
      ensures Contents(r')[i] == Contents(r)[i]
    {
      assert (r.tail + i) % SIZE != r.head;
    }
  }

  lemma TakePops(r: Ring)
    requires RingOk(r) && !Empty(r)
    ensures RingOk(DropByte(r)) && Contents(r) == [r.buf[r.tail]] + Contents(DropByte(r))
  {
    var r' := DropByte(r);
    assert Len(r') == Len(r) - 1;
    forall i | 0 <= i < Len(r')
      ensures Contents(r')[i] == Contents(r)[i + 1]
    {
      assert (r'.tail + i) % SIZE == (r.tail + (i + 1)) % SIZE;
    }
  }

  /** struct ioqueue without the waiters: what one uninterrupted call does. */
  class Queue {
    const buf: array<char>
    var head: nat
    var tail: nat

    ghost function Value(): Ring
      reads this, buf
    {
      Ring(buf[..], head, tail)
    }

    constructor ()
      ensures RingOk(Value()) && Contents(Value()) == [] && fresh(buf)
    {
      buf := new char[SIZE](i => '\0');
      head, tail := 0, 0;
    }

    method IsFull() returns (b: bool)
      requires RingOk(Value())
      ensures b <==> |Contents(Value())| == SIZE - 1
    {
      CapacityExact(Value());
      b := (head + 1) % SIZE == tail;
    }

    method IsEmpty() returns (b: bool)
      requires RingOk(Value())
      ensures b <==> Contents(Value()) == []
    {
      CapacityExact(Value());
      b := head == tail;
    }

    method Put(c: char)
      requires RingOk(Value()) && |Contents(Value())| < SIZE - 1
      modifies this`head, buf
      ensures RingOk(Value()) && Value() == PutByte(old(Value()), c) && Contents(Value()) == old(Contents(Value())) + [c]
    {
      CapacityExact(Value());
      PutAppends(Value(), c);
      buf[head] := c;
      head := (head + 1) % SIZE;
    }

    method Get() returns (c: char)
      requires RingOk(Value()) && Contents(Value()) != []
      modifies this`tail
      ensures RingOk(Value()) && Value() == DropByte(old(Value())) && old(Contents(Value())) == [c] + Contents(Value())
    {
      CapacityExact(Value());
      TakePops(Value());
      c := buf[tail];
      tail := (tail + 1) % SIZE;
    }
  }

  // -------------------------------------------------------------- the threads

  type Tid = nat

  datatype Kind = Get | Put(c: char)

  /** Where a thread stands: at the loop test, in lock_acquire, blocked in ioq_wait, or unblocked
      from there with lock_release still ahead of it. */
  datatype Place = Outside | Testing(k: Kind) | WantLock(k: Kind) | Sleeping(k: Kind) | Woken(k: Kind)

  datatype State = State(ring: Ring, holder: Option<Tid>, producer: Option<Tid>, consumer: Option<Tid>,
                         at: map<Tid, Place>, accepted: seq<char>, returned: seq<char>)

  /** A thread calls; a thread runs up to its next blocking point; an interrupt handler offers a byte. */
  datatype Action = Call(t: Tid, k: Kind) | Run(t: Tid) | Offer(c: char)

  predicate Blocks(r: Ring, k: Kind) { if k.Get? then Empty(r) else Full(r) }

  predicate Enabled(s: State, a: Action) {
    match a
    case Call(t, _) => t in s.at && s.at[t].Outside?
    case Run(t) => t in s.at && (s.at[t].Testing? || s.at[t].Woken? || (s.at[t].WantLock? && s.holder.None?))
    case Offer(_) => true
  }

  /** ioq_wait with the lock just taken. */
  function Wait(s: State, t: Tid, k: Kind): State {
    var s' := s.(holder := Some(t), at := s.at[t := Sleeping(k)]);
    if k.Get? then s'.(consumer := Some(t)) else s'.(producer := Some(t))
  }

  /** wakeup: the waiter becomes ready, the field is cleared. */
  function Wake(at: map<Tid, Place>, w: Option<Tid>): map<Tid, Place> {
    if w.Some? && w.value in at && at[w.value].Sleeping? then at[w.value := Woken(at[w.value].k)] else at
  }

  /** ioq_putchar on a ring that is not full. */
  function Deposit(s: State, c: char): State
    requires RingOk(s.ring)
  {
    s.(ring := PutByte(s.ring, c), accepted := s.accepted + [c], at := Wake(s.at, s.consumer), consumer := None)
  }

  /** ioq_getchar on a ring that is not empty. */
  function Withdraw(s: State): State
    requires RingOk(s.ring)
  {
    s.(ring := DropByte(s.ring), returned := s.returned + [s.ring.buf[s.ring.tail]],
       at := Wake(s.at, s.producer), producer := None)
  }

  function Transfer(s: State, k: Kind): State
    requires RingOk(s.ring)
  {
    match k
    case Get => Withdraw(s)
    case Put(c) => Deposit(s, c)
  }

  function Leave(s: State, t: Tid): State { s.(at := s.at[t := Outside]) }

  function Step(s: State, a: Action): State
    requires Enabled(s, a) && RingOk(s.ring)
  {
    match a
    case Call(t, k) => s.(at := s.at[t := Testing(k)])
    case Offer(c) => if Full(s.ring) then s else Deposit(s, c)
    case Run(t) =>
      match s.at[t]
      case Testing(k) =>
        if !Blocks(s.ring, k) then Leave(Transfer(s, k), t)
        else if s.holder.None? then Wait(s, t, k)
        else s.(at := s.at[t := WantLock(k)])
      case WantLock(k) => Wait(s, t, k)
      case Woken(k) => s.(holder := None, at := s.at[t := Testing(k)])
      case Outside => s
      case Sleeping(_) => s
  }

  /** The ASSERTs on the way: ioq_wait finds the waiter field empty, and wakeup unblocks a thread
      that is blocked in ioq_wait. */
  predicate AssertsHold(s: State, a: Action)
    requires Enabled(s, a)
  {
    match a
    case Call(_, _) => true
    case Offer(_) => Full(s.ring) || Wakeable(s, s.consumer)
    case Run(t) =>
      match s.at[t]
      case Testing(k) =>
        if !Blocks(s.ring, k) then Wakeable(s, if k.Get? then s.producer else s.consumer)
        else s.holder.Some? || (if k.Get? then s.consumer else s.producer).None?
      case WantLock(k) => (if k.Get? then s.consumer else s.producer).None?
      case _ => true
  }

  predicate Wakeable(s: State, w: Option<Tid>) { w.Some? ==> w.value in s.at && s.at[w.value].Sleeping? }

  // ---------------------------------------------------------------- invariant

  predicate HoldsLock(p: Place) { p.Sleeping? || p.Woken? }

  ghost predicate Waiters(s: State) {
    (forall t :: t in s.at ==> (s.holder == Some(t) <==> HoldsLock(s.at[t]))) &&
    (s.holder.Some? ==> s.holder.value in s.at) &&
    (forall t :: t in s.at ==> (s.consumer == Some(t) <==> s.at[t].Sleeping? && s.at[t].k.Get?)) &&
    (forall t :: t in s.at ==> (s.producer == Some(t) <==> s.at[t].Sleeping? && s.at[t].k.Put?)) &&
    (s.consumer.Some? ==> s.consumer.value in s.at) && (s.producer.Some? ==> s.producer.value in s.at)
  }

  ghost predicate Inv(s: State) {
    RingOk(s.ring) && Waiters(s) && s.accepted == s.returned + Contents(s.ring)
  }

  lemma DepositKeeps(s: State, c: char)
    requires Inv(s) && !Full(s.ring)
    ensures Inv(Deposit(s, c)) && Deposit(s, c).accepted == s.accepted + [c]
  {
    PutAppends(s.ring, c);
  }

  lemma WithdrawKeeps(s: State)
    requires Inv(s) && !Empty(s.ring)
    ensures Inv(Withdraw(s))
  {
    TakePops(s.ring);
    var b := s.ring.buf[s.ring.tail];
    assert s.returned + ([b] + Contents(DropByte(s.ring))) == s.returned + [b] + Contents(DropByte(s.ring));
  }

  /** Every step of every thread and every offer keeps the invariant, and no assertion fails. */
  lemma StepKeepsInv(s: State, a: Action)
    requires Inv(s) && Enabled(s, a)
    ensures AssertsHold(s, a) && Inv(Step(s, a))
  {
    match a
    case Call(t, k) =>
    case Offer(c) =>
      if !Full(s.ring) {
        DepositKeeps(s, c);
      }
    case Run(t) =>
      if s.at[t].Testing? && !Blocks(s.ring, s.at[t].k) {
        if s.at[t].k.Get? {
          WithdrawKeeps(s);
        } else {
          DepositKeeps(s, s.at[t].k.c);
        }
      }
  }

  // --------------------------------------------------------------------- runs

  ghost predicate Initial(s: State) {
    RingOk(s.ring) && Empty(s.ring) && s.holder.None? && s.producer.None? && s.consumer.None? &&
    s.accepted == [] && s.returned == [] && forall t :: t in s.at ==> s.at[t].Outside?
  }

  ghost predicate IsRun(trace: seq<State>, actions: seq<Action>) {
    |trace| == |actions| + 1 && Initial(trace[0]) &&
    forall i :: 0 <= i < |actions| ==>
      Enabled(trace[i], actions[i]) && (RingOk(trace[i].ring) ==> trace[i + 1] == Step(trace[i], actions[i]))
  }

  /** For any number of threads and every interleaving: no assertion ever fails; a waiter field names
      a thread that is blocked in ioq_wait and holds the lock, so never both are set; the bytes
      returned are a prefix of the bytes accepted, and the rest, at most 63, is in the ring. */
  lemma {:induction false} QueueIsFifo(trace: seq<State>, actions: seq<Action>)
    requires IsRun(trace, actions)
    ensures forall i :: 0 <= i < |actions| ==> AssertsHold(trace[i], actions[i])
    ensures var s := trace[|actions|];
            RingOk(s.ring) && s.accepted == s.returned + Contents(s.ring) && |Contents(s.ring)| <= SIZE - 1 &&
            !(s.producer.Some? && s.consumer.Some?) &&
            (forall t :: s.consumer == Some(t) || s.producer == Some(t) ==> t in s.at && s.at[t].Sleeping? && s.holder == Some(t))
  {
    RunInv(trace, actions);
    CapacityExact(trace[|actions|].ring);
    forall i | 0 <= i < |actions|
      ensures AssertsHold(trace[i], actions[i])
    {
      RunInv(trace[..i + 1], actions[..i]);
      StepKeepsInv(trace[i], actions[i]);
    }
  }

  lemma {:induction false} RunInv(trace: seq<State>, actions: seq<Action>)
    requires IsRun(trace, actions)
    ensures Inv(trace[|actions|])
  {
    if actions != [] {
      var k := |actions| - 1;
      RunInv(trace[..|actions|], actions[..k]);
      StepKeepsInv(trace[k], actions[k]);
    }
  }

  // ------------------------------------------------------------ calls and bytes

  /** What one scheduled step of a thread does. At the test, with a byte to take or a place to put
      one, the call takes the first byte or appends its own, and returns; otherwise it sleeps if the
      lock is free, or queues up for it. With the lock it sleeps; woken, it lets go of the lock and
      tests again. In these cases no byte moves. */
  lemma RunExact(s: State, t: Tid)
    requires Inv(s) && Enabled(s, Run(t))
    ensures var s', p := Step(s, Run(t)), s.at[t];
            var before := Contents(s.ring);
            t in s'.at && RingOk(s'.ring) &&
            match p
            case Testing(Get) =>
              if before != [] then s'.at[t] == Outside && s'.returned == s.returned + [before[0]] &&
                                   Contents(s'.ring) == before[1..] && s'.accepted == s.accepted
              else Stays(s, s') && s'.at[t] == if s.holder.None? then Sleeping(Get) else WantLock(Get)
            case Testing(Put(c)) =>
              if |before| < SIZE - 1 then s'.at[t] == Outside && s'.accepted == s.accepted + [c] &&
                                          Contents(s'.ring) == before + [c] && s'.returned == s.returned
              else Stays(s, s') && s'.at[t] == if s.holder.None? then Sleeping(Put(c)) else WantLock(Put(c))
            case WantLock(k) => Stays(s, s') && s'.at[t] == Sleeping(k) && s'.holder == Some(t)
            case Woken(k) => Stays(s, s') && s'.at[t] == Testing(k) && s'.holder == None
            case _ => true
  {
    CapacityExact(s.ring);
    if s.at[t].Testing? && !Blocks(s.ring, s.at[t].k) {
      match s.at[t].k
      case Get => TakePops(s.ring);
      case Put(c) => PutAppends(s.ring, c);
    }
  }

  /** No byte moves. */
  predicate Stays(s: State, s': State) { s'.ring == s.ring && s'.accepted == s.accepted && s'.returned == s.returned }

  /** The calls a thread made, in order. */
  function CallsOf(actions: seq<Action>, t: Tid): seq<Kind> {
    if actions == [] then []
    else
      var a := actions[|actions| - 1];
      CallsOf(actions[..|actions| - 1], t) + if a.Call? && a.t == t then [a.k] else []
  }

  /** The call that step `a` from `s` to `s'` brings to its end, if any. */
  function Completed(s: State, a: Action, s': State): Option<Kind> {
    if a.Run? && a.t in s.at && a.t in s'.at && !s.at[a.t].Outside? && s'.at[a.t].Outside? then Some(s.at[a.t].k) else None
  }

  /** The calls of a thread that returned, in order. */
  function ReturnsOf(trace: seq<State>, actions: seq<Action>, t: Tid): seq<Kind>
    requires |trace| == |actions| + 1
  {
    if actions == [] then []
    else
      var n := |actions| - 1;
      var done := Completed(trace[n], actions[n], trace[n + 1]);
      ReturnsOf(trace[..n + 1], actions[..n], t) + if done.Some? && actions[n].t == t then [done.value] else []
  }

  /** The byte a step brings in: that of a completed ioq_putchar, or an offer that finds room. */
  function BroughtIn(s: State, a: Action, s': State): seq<char> {
    match a
    case Offer(c) => if RingOk(s.ring) && |Contents(s.ring)| < SIZE - 1 then [c] else []
    case Run(_) => (match Completed(s, a, s') case Some(Put(c)) => [c] case _ => [])
    case Call(_, _) => []
  }

  function AllBroughtIn(trace: seq<State>, actions: seq<Action>): seq<char>
    requires |trace| == |actions| + 1
  {
    if actions == [] then []
    else
      var n := |actions| - 1;
      AllBroughtIn(trace[..n + 1], actions[..n]) + BroughtIn(trace[n], actions[n], trace[n + 1])
  }

  /** The number of completed ioq_getchar calls. */
  function GetsDone(trace: seq<State>, actions: seq<Action>): nat
    requires |trace| == |actions| + 1
  {
    if actions == [] then 0
    else
      var n := |actions| - 1;
      GetsDone(trace[..n + 1], actions[..n]) + if Completed(trace[n], actions[n], trace[n + 1]) == Some(Get) then 1 else 0
  }

  function Working(p: Place): seq<Kind> { if p.Outside? then [] else [p.k] }

  /** One step: a call that ends has moved its byte, and nothing else but an offer moves one. */
  lemma StepMoves(s: State, a: Action)
    requires Inv(s) && Enabled(s, a)
    ensures var s' := Step(s, a);
            s'.accepted == s.accepted + BroughtIn(s, a, s') &&
            |s'.returned| == |s.returned| + if Completed(s, a, s') == Some(Get) then 1 else 0
  {
    match a
    case Call(_, _) =>
    case Offer(c) => CapacityExact(s.ring);
    case Run(t) => RunExact(s, t);
  }

  lemma StepPlaces(s: State, a: Action, t: Tid)
    requires Inv(s) && Enabled(s, a) && t in s.at
    ensures var s' := Step(s, a);
            t in s'.at &&
            (if Completed(s, a, s').Some? && a.t == t then [Completed(s, a, s').value] else []) + Working(s'.at[t]) ==
              Working(s.at[t]) + if a.Call? && a.t == t then [a.k] else []
  {
    if a == Run(t) {
      RunExact(s, t);
    }
  }

  lemma LastStep(trace: seq<State>, actions: seq<Action>)
    requires IsRun(trace, actions) && actions != []
    ensures var n := |actions| - 1;
            IsRun(trace[..n + 1], actions[..n]) && Inv(trace[n]) && Enabled(trace[n], actions[n]) &&
            trace[n + 1] == Step(trace[n], actions[n])
  {
    RunInv(trace[..|actions|], actions[..|actions| - 1]);
  }

  lemma {:induction false} RunMoves(trace: seq<State>, actions: seq<Action>)
    requires IsRun(trace, actions)
    ensures var s := trace[|actions|];
            s.accepted == AllBroughtIn(trace, actions) && |s.returned| == GetsDone(trace, actions)
  {
    if actions != [] {
      var n := |actions| - 1;
      LastStep(trace, actions);
      RunMoves(trace[..n + 1], actions[..n]);
      StepMoves(trace[n], actions[n]);
    }
  }

  lemma Placed(r: seq<Kind>, done: Option<Kind>, a: Action, t: Tid, w: seq<Kind>, w': seq<Kind>)
    requires done.Some? ==> a.Run?
    requires (if done.Some? && a.t == t then [done.value] else []) + w' == w + if a.Call? && a.t == t then [a.k] else []
    ensures r + (if done.Some? && a.t == t then [done.value] else []) + w' == r + w + if a.Call? && a.t == t then [a.k] else []
  {
    Assoc(r, if done.Some? && a.t == t then [done.value] else [], w');
    Assoc(r, w, if a.Call? && a.t == t then [a.k] else []);
  }

  lemma {:induction false} RunPlaces(trace: seq<State>, actions: seq<Action>, t: Tid)
    requires IsRun(trace, actions) && t in trace[0].at
    ensures var s := trace[|actions|];
            t in s.at && ReturnsOf(trace, actions, t) + Working(s.at[t]) == CallsOf(actions, t)
  {
    if actions != [] {
      var n := |actions| - 1;
      LastStep(trace, actions);
      RunPlaces(trace[..n + 1], actions[..n], t);
      StepPlaces(trace[n], actions[n], t);
      Placed(ReturnsOf(trace[..n + 1], actions[..n], t), Completed(trace[n], actions[n], trace[n + 1]), actions[n], t,
             Working(trace[n].at[t]), Working(trace[n + 1].at[t]));
    }
  }

  /** Over every run: the calls of each thread return in the order they were made, all but the one in
      progress; the bytes accepted are those of the completed ioq_putchar calls and of the offers that
      found room, in that order; and the k-th byte accepted went to the k-th completed ioq_getchar. */
  lemma CallsMoveBytes(trace: seq<State>, actions: seq<Action>)
    requires IsRun(trace, actions)
    ensures var s := trace[|actions|];
            (forall t :: t in trace[0].at ==> t in s.at && ReturnsOf(trace, actions, t) + Working(s.at[t]) == CallsOf(actions, t)) &&
            s.accepted == AllBroughtIn(trace, actions) &&
            GetsDone(trace, actions) <= |s.accepted| && s.returned == s.accepted[..GetsDone(trace, actions)] &&
            RingOk(s.ring) && Contents(s.ring) == s.accepted[GetsDone(trace, actions)..]
  {
    RunInv(trace, actions);
    RunMoves(trace, actions);
    forall t | t in trace[0].at
      ensures var s := trace[|actions|]; t in s.at && ReturnsOf(trace, actions, t) + Working(s.at[t]) == CallsOf(actions, t)
    {
      RunPlaces(trace, actions, t);
    }
  }

  // ------------------------------------------------------------- lost wake-ups

  /** A sleeping reader has nothing to read, a sleeping writer no place to write. */
  ghost predicate NoLostWakeup(s: State) {
    (s.consumer.Some? ==> Empty(s.ring)) && (s.producer.Some? ==> Full(s.ring))
  }

  /** The one step that loses a wake-up: the lock arrives, the ring is not tested again. */
  predicate SleepsInVain(s: State, a: Action)
    requires Enabled(s, a)
  {
    a.Run? && s.at[a.t].WantLock? && !Blocks(s.ring, s.at[a.t].k)
  }

  lemma NoLostWakeupIff(s: State, a: Action)
    requires Inv(s) && NoLostWakeup(s) && Enabled(s, a)
    ensures NoLostWakeup(Step(s, a)) <==> !SleepsInVain(s, a)
  {
    StepKeepsInv(s, a);
  }

  // ------------------------------------------------------- who can lose a wake-up

  /** Every thread keeps to one call: the readers to ioq_getchar, the others to ioq_putchar. */
  ghost predicate InRole(actions: seq<Action>, readers: set<Tid>) {
    forall i :: 0 <= i < |actions| && actions[i].Call? ==> (actions[i].k.Get? <==> actions[i].t in readers)
  }

  ghost predicate Losing(trace: seq<State>, actions: seq<Action>) {
    IsRun(trace, actions) && !NoLostWakeup(trace[|actions|])
  }

  ghost predicate Alone(s: State) { forall t, u :: t in s.at && u in s.at ==> t == u }

  /** No thread is about to sleep in vain, because there is no second thread, or because nobody reads
      and a full ring stays full. */
  ghost predicate Settled(s: State) {
    NoLostWakeup(s) &&
    ((Alone(s) && forall t :: t in s.at ==> !s.at[t].WantLock?) ||
     ((forall t :: t in s.at && !s.at[t].Outside? ==> s.at[t].k.Put?) &&
      (forall t :: t in s.at && s.at[t].WantLock? ==> Full(s.ring))))
  }

  lemma SettledStep(s: State, a: Action)
    requires Inv(s) && Settled(s) && Enabled(s, a)
    requires Alone(s) || (a.Call? ==> a.k.Put?)
    ensures Settled(Step(s, a)) && Step(s, a).at.Keys == s.at.Keys
  {
    NoLostWakeupIff(s, a);
  }

  /** One thread, whatever it calls, or any number of writers: no run loses a wake-up. */
  lemma {:induction false} SettledRun(trace: seq<State>, actions: seq<Action>)
    requires IsRun(trace, actions)
    requires Alone(trace[0]) || forall i :: 0 <= i < |actions| && actions[i].Call? ==> actions[i].k.Put?
    ensures Settled(trace[|actions|]) && trace[|actions|].at.Keys == trace[0].at.Keys
  {
    if actions != [] {
      var k := |actions| - 1;
      SettledRun(trace[..|actions|], actions[..k]);
      RunInv(trace[..|actions|], actions[..k]);
      assert Alone(trace[0]) ==> Alone(trace[k]);
      SettledStep(trace[k], actions[k]);
    }
  }

  lemma RunGrows(trace: seq<State>, actions: seq<Action>, a: Action, readers: set<Tid>)
    returns (trace': seq<State>, actions': seq<Action>)
    requires IsRun(trace, actions) && RingOk(trace[|actions|].ring) && Enabled(trace[|actions|], a)
    requires InRole(actions, readers) && (a.Call? ==> (a.k.Get? <==> a.t in readers))
    ensures IsRun(trace', actions') && InRole(actions', readers) && trace'[0] == trace[0]
    ensures trace'[|actions'|] == Step(trace[|actions|], a)
  {
    trace' := trace + [Step(trace[|actions|], a)];
    actions' := actions + [a];
  }

  /** Reader t is woken by a byte; it still holds the lock, and u has not called yet. */
  lemma ReaderWoken(s: State, t: Tid, u: Tid, readers: set<Tid>) returns (trace: seq<State>, actions: seq<Action>)
    requires Initial(s) && t in s.at && u in s.at && t != u && t in readers
    ensures IsRun(trace, actions) && InRole(actions, readers) && trace[0] == s && OneWoken(trace[|actions|], t, u)
    ensures Len(trace[|actions|].ring) == 1
  {
    trace, actions := RunGrows([s], [], Call(t, Get), readers);
    trace, actions := RunGrows(trace, actions, Run(t), readers);
    trace, actions := RunGrows(trace, actions, Offer('a'), readers);
  }

  predicate OneWoken(s: State, t: Tid, u: Tid) {
    RingOk(s.ring) && t in s.at && u in s.at && t != u && s.at[t] == Woken(Get) && s.at[u] == Outside &&
    s.holder == Some(t) && s.consumer.None? && s.producer.None?
  }

  /** Reader t sleeps, holding the lock; reader u queues up for it. */
  lemma SecondReaderWaits(s: State, t: Tid, u: Tid, readers: set<Tid>) returns (trace: seq<State>, actions: seq<Action>)
    requires Initial(s) && t in s.at && u in s.at && t != u && t in readers && u in readers
    ensures IsRun(trace, actions) && InRole(actions, readers) && trace[0] == s
    ensures var s' := trace[|actions|];
            s' == s.(holder := Some(t), consumer := Some(t), at := s.at[t := Sleeping(Get)][u := WantLock(Get)])
  {
    trace, actions := RunGrows([s], [], Call(t, Get), readers);
    trace, actions := RunGrows(trace, actions, Run(t), readers);
    trace, actions := RunGrows(trace, actions, Call(u, Get), readers);
    trace, actions := RunGrows(trace, actions, Run(u), readers);
  }

  /** Two readers: while u is queued up for the lock, t is woken, takes the byte and returns; another
      byte arrives, and u goes to sleep beside it. */
  lemma TwoReadersLoseWakeup(s: State, t: Tid, u: Tid, readers: set<Tid>)
    returns (trace: seq<State>, actions: seq<Action>)
    requires Initial(s) && t in s.at && u in s.at && t != u && t in readers && u in readers
    ensures Losing(trace, actions) && InRole(actions, readers) && trace[0] == s
    ensures var s' := trace[|actions|]; s'.consumer == Some(u) && t in s'.at && s'.at[t] == Outside
  {
    trace, actions := SecondReaderWaits(s, t, u, readers);
    trace, actions := RunGrows(trace, actions, Offer('a'), readers);
    trace, actions := RunGrows(trace, actions, Run(t), readers);
    trace, actions := RunGrows(trace, actions, Run(t), readers);
    trace, actions := RunGrows(trace, actions, Offer('b'), readers);
    trace, actions := RunGrows(trace, actions, Run(u), readers);
  }

  /** Writer u fills the ring while the woken reader t still holds the lock. */
  lemma {:induction false} WriterFills(trace: seq<State>, actions: seq<Action>, t: Tid, u: Tid, readers: set<Tid>)
    returns (trace': seq<State>, actions': seq<Action>)
    requires IsRun(trace, actions) && InRole(actions, readers) && OneWoken(trace[|actions|], t, u) && u !in readers
    ensures IsRun(trace', actions') && InRole(actions', readers) && trace'[0] == trace[0]
    ensures OneWoken(trace'[|actions'|], t, u) && Full(trace'[|actions'|].ring)
    decreases SIZE - Len(trace[|actions|].ring)
  {
    trace', actions' := trace, actions;
    if !Full(trace[|actions|].ring) {
      trace', actions' := RunGrows(trace', actions', Call(u, Put('b')), readers);
      trace', actions' := RunGrows(trace', actions', Run(u), readers);
      trace', actions' := WriterFills(trace', actions', t, u, readers);
    }
  }

  /** One reader and one writer: u finds the ring full and queues up for the lock, t takes a byte
      and returns, and u goes to sleep beside the free place. */
  lemma ReaderAndWriterLoseWakeup(s: State, t: Tid, u: Tid, readers: set<Tid>)
    returns (trace: seq<State>, actions: seq<Action>)
    requires Initial(s) && t in s.at && u in s.at && t != u && t in readers && u !in readers
    ensures Losing(trace, actions) && InRole(actions, readers) && trace[0] == s
    ensures var s' := trace[|actions|]; s'.producer == Some(u) && t in s'.at && s'.at[t] == Outside
  {
    trace, actions := ReaderWoken(s, t, u, readers);
    trace, actions := WriterFills(trace, actions, t, u, readers);
    trace, actions := RunGrows(trace, actions, Call(u, Put('c')), readers);
    trace, actions := RunGrows(trace, actions, Run(u), readers);
    trace, actions := RunGrows(trace, actions, Run(t), readers);
    trace, actions := RunGrows(trace, actions, Run(t), readers);
    trace, actions := RunGrows(trace, actions, Run(u), readers);
  }

  /** With fixed roles, some run loses a wake-up if and only if there is a reader and a second thread,
      reader or writer. */
  lemma LostWakeupByRoles(s: State, readers: set<Tid>)
    requires Initial(s)
    ensures (exists trace, actions :: Losing(trace, actions) && InRole(actions, readers) && trace[0] == s) <==>
            (exists t, u :: t in s.at && u in s.at && t != u && t in readers)
  {
    if t, u :| t in s.at && u in s.at && t != u && t in readers {
      var trace, actions;
      if u in readers {
        trace, actions := TwoReadersLoseWakeup(s, t, u, readers);
      } else {
        trace, actions := ReaderAndWriterLoseWakeup(s, t, u, readers);
      }
    } else {
      forall trace, actions | IsRun(trace, actions) && InRole(actions, readers) && trace[0] == s
        ensures NoLostWakeup(trace[|actions|])
      {
        CallersKnown(trace, actions);
        SettledRun(trace, actions);
      }
    }
  }

  lemma {:induction false} CallersKnown(trace: seq<State>, actions: seq<Action>)
    requires IsRun(trace, actions)
    ensures trace[|actions|].at.Keys == trace[0].at.Keys
    ensures forall i :: 0 <= i < |actions| && actions[i].Call? ==> actions[i].t in trace[0].at
  {
    if actions != [] {
      var k := |actions| - 1;
      CallersKnown(trace[..|actions|], actions[..k]);
      RunInv(trace[..|actions|], actions[..k]);
    }
  }

  /** With threads free to call either, some run loses a wake-up if and only if there are two of them. */
  lemma LostWakeupIff(s: State)
    requires Initial(s)
    ensures (exists trace, actions :: Losing(trace, actions) && trace[0] == s) <==>
            (exists t, u :: t in s.at && u in s.at && t != u)
  {
    if t, u :| t in s.at && u in s.at && t != u {
      LostWakeupByRoles(s, {t});
    } else {
      forall trace, actions | IsRun(trace, actions) && trace[0] == s
        ensures NoLostWakeup(trace[|actions|])
      {
        SettledRun(trace, actions);
      }
    }
  }

  // -------------------------------------------------------------- lost for good

  /** Reader u sleeps beside a full ring, and nobody else is reading. */
  ghost predicate Dead(s: State, u: Tid) {
    Inv(s) && Full(s.ring) && s.consumer == Some(u) &&
    forall v :: v in s.at && v != u && !s.at[v].Outside? ==> s.at[v].k.Put?
  }

  lemma DeadStep(s: State, a: Action, u: Tid)
    requires Dead(s, u) && Enabled(s, a) && (a.Call? ==> a.k.Put?)
    ensures Dead(Step(s, a), u) && Stays(s, Step(s, a))
  {
    StepKeepsInv(s, a);
  }

  /** From there on, as long as no other thread calls ioq_getchar, it never wakes up: every offer is
      dropped, every writer blocks, and no byte moves any more. */
  lemma {:induction false} DeadForever(trace: seq<State>, actions: seq<Action>, n: nat, u: Tid)
    requires IsRun(trace, actions) && n <= |actions| && Dead(trace[n], u)
    requires forall i :: n <= i < |actions| && actions[i].Call? ==> actions[i].k.Put?
    ensures Dead(trace[|actions|], u) && Stays(trace[n], trace[|actions|])
  {
    if n < |actions| {
      var k := |actions| - 1;
      LastStep(trace, actions);
      DeadForever(trace[..k + 1], actions[..k], n, u);
      DeadStep(trace[k], actions[k], u);
    }
  }

  lemma {:induction false} OffersFill(trace: seq<State>, actions: seq<Action>, u: Tid, readers: set<Tid>)
    returns (trace': seq<State>, actions': seq<Action>)
    requires IsRun(trace, actions) && InRole(actions, readers) && OneQueued(trace[|actions|], u)
    ensures IsRun(trace', actions') && InRole(actions', readers) && trace'[0] == trace[0]
    ensures OneQueued(trace'[|actions'|], u) && Full(trace'[|actions'|].ring)
    decreases SIZE - Len(trace[|actions|].ring)
  {
    trace', actions' := trace, actions;
    if !Full(trace[|actions|].ring) {
      trace', actions' := RunGrows(trace', actions', Offer('b'), readers);
      trace', actions' := OffersFill(trace', actions', u, readers);
    }
  }

  /** Reader u is in lock_acquire, the lock is free, everyone else is gone. */
  ghost predicate OneQueued(s: State, u: Tid) {
    RingOk(s.ring) && s.holder.None? && s.consumer.None? && s.producer.None? && u in s.at && s.at[u] == WantLock(Get) &&
    forall v :: v in s.at && v != u ==> s.at[v].Outside?
  }

  /** Any two readers can get there, with keys arriving faster than they are read. */
  lemma TwoReadersDie(s: State, t: Tid, u: Tid, readers: set<Tid>) returns (trace: seq<State>, actions: seq<Action>)
    requires Initial(s) && t in s.at && u in s.at && t != u && t in readers && u in readers
    ensures IsRun(trace, actions) && InRole(actions, readers) && trace[0] == s && Dead(trace[|actions|], u)
  {
    trace, actions := SecondReaderWaits(s, t, u, readers);
    trace, actions := RunGrows(trace, actions, Offer('a'), readers);
    trace, actions := RunGrows(trace, actions, Run(t), readers);
    trace, actions := RunGrows(trace, actions, Run(t), readers);
    trace, actions := OffersFill(trace, actions, u, readers);
    trace, actions := RunGrows(trace, actions, Run(u), readers);
    RunInv(trace, actions);
  }
}
