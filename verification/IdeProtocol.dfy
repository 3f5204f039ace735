/**
 Any number of threads in ide_read and ide_write on one channel, with disk interrupts, genuine or
 spurious, at any moment: the lock, the expecting_intr flag, the disk_done semaphore and the
 registers as a state machine, proved to execute the requests one after the other.
 */
module IdeProtocol {
  import opened Common
  import opened IdeDisk

  type Tid = nat

  datatype Request = Request(write: bool, dev: nat, lba: nat, count: nat, data: seq<Data>)

  /** Where a thread that holds the lock stands in the loop. */
  datatype Point =
    | SelectDisk            // lock just acquired
    | Test                  // while (secs_done < sec_cnt)
    | Select(reg: nat)      // about to write register `reg`
    | Flag                  // cmd_out: expecting_intr = true
    | Issue                 // cmd_out: outb(cmd)
    | Down                  // sema_down(&disk_done)
    | Move                  // busy_wait passed, data goes over the port

  datatype Pc = Idle | Asking(q: Request) | Inside(q: Request, done: nat, buf: seq<Data>, at: Point)

  /** The command the drive took from its registers when the command register was written. */
  datatype Command = Command(dev: nat, lba: nat, count: nat)

  /** The channel: flag, semaphore, registers, the drive's command and the two drives. */
  datatype Core = Core(expecting: bool, sem: nat, regs: seq<nat>, command: Command, disks: seq<seq<Data>>,
                       issued: nat, consumed: nat)

  datatype Record = Record(t: Tid, q: Request, result: seq<Data>)

  datatype State = State(core: Core, holder: Option<Tid>, pcs: map<Tid, Pc>, log: seq<Record>)

  datatype Action = Call(t: Tid, q: Request) | Acquire(t: Tid) | Go(t: Tid) | Interrupt

  // -------------------------------------------------------------------- steps

  /** intr_hd_handler */
  function Handle(c: Core): Core {
    if c.expecting then c.(expecting := false, sem := c.sem + 1) else c
  }

  predicate CanGo(c: Core, p: Pc) { p.Inside? && (p.at.Down? ==> c.sem > 0) }

  /** secs_op of the round a thread is in. */
  function Op(p: Pc): nat
    requires p.Inside?
  {
    if p.done < p.q.count then Chunk(p.q.count, p.done) else 0
  }

  /** The next statement of the lock holder; Idle as the new place means the lock is released. */
  function Advance(c: Core, p: Pc): (Core, Pc)
    requires CanGo(c, p) && |c.regs| == 5 && |c.disks| == 2
  {
    var q := p.q;
    match p.at
    case SelectDisk => (c.(regs := c.regs[4 := DevBits(q.dev)]), p.(at := Test))
    case Test => if p.done < q.count then (c, p.(at := Select(0))) else (c, Idle)
    case Select(k) =>
      if k < 5 then (c.(regs := c.regs[k := Pack(q.dev, q.lba + p.done, Op(p))[k]]), p.(at := Select(k + 1)))
      else (c, p.(at := Flag))
    case Flag => (c.(expecting := true, issued := c.issued + 1), p.(at := Issue))
    case Issue =>
      (c.(command := Command(RegDev(c.regs), RegLba(c.regs), RegCount(c.regs))), p.(at := if q.write then Move else Down))
    case Down =>
      (c.(sem := c.sem - 1, consumed := c.consumed + 1),
       if q.write then p.(done := p.done + Op(p), at := Test) else p.(at := Move))
    case Move =>
      var dev, lba := c.command.dev % 2, c.command.lba;
      if q.write then
        (c.(disks := c.disks[dev := Overwrite(c.disks[dev], lba, Slice(q.data, p.done, Count8(Op(p))))]), p.(at := Down))
      else (c, p.(buf := p.buf + Slice(c.disks[dev], lba, c.command.count), done := p.done + Op(p), at := Test))
  }

  predicate Enabled(s: State, a: Action) {
    match a
    case Call(t, _) => t in s.pcs && s.pcs[t].Idle?
    case Acquire(t) => t in s.pcs && s.pcs[t].Asking? && s.holder.None?
    case Go(t) => t in s.pcs && CanGo(s.core, s.pcs[t])
    case Interrupt => true
  }

  function Step(s: State, a: Action): State
    requires Enabled(s, a) && |s.core.regs| == 5 && |s.core.disks| == 2
  {
    match a
    case Call(t, q) => s.(pcs := s.pcs[t := Asking(q)])
    case Acquire(t) => s.(holder := Some(t), pcs := s.pcs[t := Inside(s.pcs[t].q, 0, [], SelectDisk)])
    case Go(t) =>
      var (c', p') := Advance(s.core, s.pcs[t]);
      var s' := s.(core := c', pcs := s.pcs[t := p']);
      if p'.Idle? then s'.(holder := None, log := s.log + [Record(t, s.pcs[t].q, s.pcs[t].buf)]) else s'
    case Interrupt => s.(core := Handle(s.core))
  }

  // ----------------------------------------------------------- the sequential view

  /** One request executed alone and at once. */
  function Execute(disks: seq<seq<Data>>, q: Request): seq<seq<Data>>
    requires |disks| == 2
  {
    if q.write && q.dev < 2 then disks[q.dev := Overwrite(disks[q.dev], q.lba, q.data)] else disks
  }

  function Expected(disks: seq<seq<Data>>, q: Request): seq<Data>
    requires |disks| == 2
  {
    if q.write || q.dev >= 2 then [] else Slice(disks[q.dev], q.lba, q.count)
  }

  function Replay(disks: seq<seq<Data>>, log: seq<Record>): (r: seq<seq<Data>>)
    requires |disks| == 2
    ensures |r| == 2 && |r[0]| == |disks[0]| && |r[1]| == |disks[1]|
  {
    if log == [] then disks else Execute(Replay(disks, log[..|log| - 1]), log[|log| - 1].q)
  }

  /** Every completed request returned what it would have returned at its turn in the log. */
  ghost predicate Serial(disks: seq<seq<Data>>, log: seq<Record>)
    requires |disks| == 2
  {
    forall i :: 0 <= i < |log| ==> log[i].result == Expected(Replay(disks, log[..i]), log[i].q)
  }

  // ---------------------------------------------------------------- invariant

  predicate RequestOk(q: Request, disks: seq<seq<Data>>)
    requires |disks| == 2
  {
    q.dev < 2 && Passes(q.lba, q.count) && q.lba + q.count <= |disks[q.dev]| && |q.data| == if q.write then q.count else 0
  }

  /** Commands of this holder that are sent and whose completion it has not yet consumed. */
  function Outstanding(p: Pc): nat {
    if p.Inside? && (p.at.Issue? || p.at.Down? || (p.at.Move? && p.q.write)) then 1 else 0
  }

  function Pending(c: Core): nat { c.sem + if c.expecting then 1 else 0 }

  ghost predicate RegsWritten(c: Core, p: Pc, k: nat)
    requires p.Inside? && |c.regs| == 5 && k <= 5
  {
    c.regs[..k] == Pack(p.q.dev, p.q.lba + p.done, Op(p))[..k]
  }

  /** The sectors a writer has stored so far. */
  function Stored(p: Pc): nat
    requires p.Inside?
  {
    p.done + if p.q.write && p.at.Down? then Op(p) else 0
  }

  ghost predicate HolderOk(c: Core, p: Pc, base: seq<seq<Data>>) {
    |c.regs| == 5 && |c.disks| == 2 && |base| == 2 && p.Inside? && RequestOk(p.q, base) &&
    p.done <= p.q.count && (p.done < p.q.count ==> p.done % CHUNK == 0) &&
    (p.done < p.q.count || p.at.Test?) && (p.at.SelectDisk? ==> p.done == 0) &&
    (p.at.Select? ==> p.at.reg <= 5 && RegsWritten(c, p, p.at.reg)) &&
    (p.at.Flag? || p.at.Issue? ==> RegsWritten(c, p, 5)) &&
    (p.at.Down? || p.at.Move? ==> c.command == Command(p.q.dev, p.q.lba + p.done, Op(p))) &&
    Pending(c) == Outstanding(p) &&
    (if p.q.write then p.buf == [] && c.disks == base[p.q.dev := Overwrite(base[p.q.dev], p.q.lba, p.q.data[..Stored(p)])]
     else c.disks == base && p.buf == Slice(base[p.q.dev], p.q.lba, p.done))
  }

  ghost predicate FreeOk(c: Core, base: seq<seq<Data>>) {
    |c.regs| == 5 && c.disks == base && !c.expecting && c.sem == 0
  }

  ghost predicate Inv(s: State, init: seq<seq<Data>>) {
    |init| == 2 && Serial(init, s.log) && (forall i :: 0 <= i < |s.log| ==> RequestOk(s.log[i].q, init)) &&
    (forall t :: t in s.pcs ==> (s.pcs[t].Inside? <==> s.holder == Some(t))) &&
    (forall t :: t in s.pcs && !s.pcs[t].Idle? ==> RequestOk(s.pcs[t].q, init)) &&
    s.core.issued == s.core.consumed + Pending(s.core) &&
    match s.holder
    case None => FreeOk(s.core, Replay(init, s.log))
    case Some(t) => t in s.pcs && HolderOk(s.core, s.pcs[t], Replay(init, s.log))
  }

  // -------------------------------------------------------------- preservation

  lemma HandleKeeps(c: Core, p: Pc, base: seq<seq<Data>>)
    requires HolderOk(c, p, base)
    ensures HolderOk(Handle(c), p, base) && (c.expecting ==> c.sem == 0)
  {
  }

  lemma SelectKeeps(c: Core, p: Pc, base: seq<seq<Data>>)
    requires HolderOk(c, p, base) && p.at.Select?
    ensures var (c', p') := Advance(c, p); HolderOk(c', p', base)
  {
    var k := p.at.reg;
    if k < 5 {
      var pack := Pack(p.q.dev, p.q.lba + p.done, Op(p));
      assert c.regs[k := pack[k]][..k + 1] == c.regs[..k] + [pack[k]];
      assert pack[..k + 1] == pack[..k] + [pack[k]];
    }
  }

  lemma IssueKeeps(c: Core, p: Pc, base: seq<seq<Data>>)
    requires HolderOk(c, p, base) && p.at.Issue?
    ensures var (c', p') := Advance(c, p); HolderOk(c', p', base)
  {
    var pack := Pack(p.q.dev, p.q.lba + p.done, Op(p));
    assert c.regs == c.regs[..5] && pack == pack[..5];
    ChunkStart(p.q.count, p.done);
    RegistersRoundTrip(p.q.dev, p.q.lba + p.done, Op(p));
  }

  lemma MoveReadKeeps(c: Core, p: Pc, base: seq<seq<Data>>)
    requires HolderOk(c, p, base) && p.at.Move? && !p.q.write
    ensures var (c', p') := Advance(c, p); HolderOk(c', p', base)
  {
    SliceJoin(base[p.q.dev], p.q.lba, p.done, Op(p));
  }

  lemma MoveWriteKeeps(c: Core, p: Pc, base: seq<seq<Data>>)
    requires HolderOk(c, p, base) && p.at.Move? && p.q.write
    ensures var (c', p') := Advance(c, p); HolderOk(c', p', base)
  {
    var op := Op(p);
    assert Count8(op) == op;
    OverwriteJoin(base[p.q.dev], p.q.lba, p.q.data, p.done, op);
  }

  /** Each statement of the holder keeps the invariant; a holder that leaves has done its request. */
  lemma AdvanceKeeps(c: Core, p: Pc, base: seq<seq<Data>>)
    requires HolderOk(c, p, base) && CanGo(c, p)
    ensures var (c', p') := Advance(c, p);
            if p'.Idle? then FreeOk(c', Execute(base, p.q)) && p.buf == Expected(base, p.q)
            else HolderOk(c', p', base) && p'.q == p.q
  {
    match p.at
    case Select(_) => SelectKeeps(c, p, base);
    case Issue => IssueKeeps(c, p, base);
    case Move =>
      if p.q.write {
        MoveWriteKeeps(c, p, base);
      } else {
        MoveReadKeeps(c, p, base);
      }
    case Test => TestKeeps(c, p, base);
    case SelectDisk =>
    case Flag =>
    case Down => DownKeeps(c, p, base);
  }

  lemma TestKeeps(c: Core, p: Pc, base: seq<seq<Data>>)
    requires HolderOk(c, p, base) && p.at.Test?
    ensures var (c', p') := Advance(c, p);
            if p'.Idle? then FreeOk(c', Execute(base, p.q)) && p.buf == Expected(base, p.q)
            else HolderOk(c', p', base) && p'.q == p.q
  {
    assert p.q.write ==> p.q.data[..p.q.count] == p.q.data;
  }

  lemma DownKeeps(c: Core, p: Pc, base: seq<seq<Data>>)
    requires HolderOk(c, p, base) && p.at.Down? && c.sem > 0
    ensures var (c', p') := Advance(c, p); HolderOk(c', p', base) && p'.q == p.q
  {
  }

  /** Sending adds one to what is pending, consuming takes one away. */
  lemma AdvanceCounts(c: Core, p: Pc, base: seq<seq<Data>>)
    requires HolderOk(c, p, base) && CanGo(c, p) && c.issued == c.consumed + Pending(c)
    ensures var (c', _) := Advance(c, p); c'.issued == c'.consumed + Pending(c')
  {
  }

  /** Any step of any thread, and any interrupt. */
  lemma StepKeepsInv(s: State, init: seq<seq<Data>>, a: Action)
    requires Inv(s, init) && Enabled(s, a) && (a.Call? ==> RequestOk(a.q, init))
    ensures |s.core.regs| == 5 && |s.core.disks| == 2 && Inv(Step(s, a), init)
  {
    var base := Replay(init, s.log);
    match a
    case Call(t, q) =>
    case Acquire(t) => AcquireKeeps(s, init, t);
    case Go(t) => GoKeeps(s, init, t);
    case Interrupt =>
      if s.holder.Some? {
        HandleKeeps(s.core, s.pcs[s.holder.value], base);
      }
  }

  lemma AcquireKeeps(s: State, init: seq<seq<Data>>, t: Tid)
    requires Inv(s, init) && Enabled(s, Acquire(t))
    ensures Inv(Step(s, Acquire(t)), init)
  {
    EnterOk(s.core, s.pcs[t].q, Replay(init, s.log));
  }

  lemma EnterOk(c: Core, q: Request, base: seq<seq<Data>>)
    requires |base| == 2 && FreeOk(c, base) && RequestOk(q, base)
    ensures HolderOk(c, Inside(q, 0, [], SelectDisk), base)
  {
    if q.write {
      assert Overwrite(base[q.dev], q.lba, q.data[..0]) == base[q.dev];
    }
  }

  lemma GoKeeps(s: State, init: seq<seq<Data>>, t: Tid)
    requires Inv(s, init) && Enabled(s, Go(t))
    ensures |s.core.regs| == 5 && |s.core.disks| == 2 && Inv(Step(s, Go(t)), init)
  {
    var base := Replay(init, s.log);
    AdvanceKeeps(s.core, s.pcs[t], base);
    AdvanceCounts(s.core, s.pcs[t], base);
    var (c', p') := Advance(s.core, s.pcs[t]);
    if p'.Idle? {
      LeaveKeeps(s, init, t, c');
    } else {
      StayKeeps(s, init, t, c', p');
    }
  }

  lemma StayKeeps(s: State, init: seq<seq<Data>>, t: Tid, c: Core, p: Pc)
    requires Inv(s, init) && s.holder == Some(t) && HolderOk(c, p, Replay(init, s.log)) && p.q == s.pcs[t].q
    requires c.issued == c.consumed + Pending(c)
    ensures Inv(s.(core := c, pcs := s.pcs[t := p]), init)
  {
  }

  lemma LeaveKeeps(s: State, init: seq<seq<Data>>, t: Tid, c: Core)
    requires Inv(s, init) && s.holder == Some(t) && c.issued == c.consumed + Pending(c)
    requires FreeOk(c, Execute(Replay(init, s.log), s.pcs[t].q)) && s.pcs[t].buf == Expected(Replay(init, s.log), s.pcs[t].q)
    ensures Inv(s.(core := c, pcs := s.pcs[t := Idle], holder := None, log := s.log + [Record(t, s.pcs[t].q, s.pcs[t].buf)]), init)
  {
    LogGrows(init, s.log, Record(t, s.pcs[t].q, s.pcs[t].buf));
  }

  lemma LogGrows(init: seq<seq<Data>>, log: seq<Record>, r: Record)
    requires |init| == 2 && Serial(init, log) && r.result == Expected(Replay(init, log), r.q)
    ensures Serial(init, log + [r]) && Replay(init, log + [r]) == Execute(Replay(init, log), r.q)
  {
    var log' := log + [r];
    assert log'[..|log|] == log;
    forall i | 0 <= i < |log'|
      ensures log'[i].result == Expected(Replay(init, log'[..i]), log'[i].q)
    {
      if i < |log| {
        assert log'[..i] == log[..i];
      }
    }
  }

  // --------------------------------------------------------------------- runs

  /** A state that some interleaving leads to from an idle channel. */
  ghost predicate Reachable(trace: seq<State>, actions: seq<Action>, init: seq<seq<Data>>) {
    |init| == 2 && |trace| == |actions| + 1 &&
    trace[0].log == [] && trace[0].holder.None? && FreeOk(trace[0].core, init) &&
    trace[0].core.issued == 0 && trace[0].core.consumed == 0 &&
    (forall t :: t in trace[0].pcs ==> trace[0].pcs[t].Idle?) &&
    forall i :: 0 <= i < |actions| ==>
      Enabled(trace[i], actions[i]) && (actions[i].Call? ==> RequestOk(actions[i].q, init)) &&
      (|trace[i].core.regs| == 5 && |trace[i].core.disks| == 2 ==> trace[i + 1] == Step(trace[i], actions[i]))
  }

  lemma {:induction false} ReachableInv(trace: seq<State>, actions: seq<Action>, init: seq<seq<Data>>)
    requires Reachable(trace, actions, init)
    ensures Inv(trace[|actions|], init)
  {
    if actions != [] {
      var k := |actions| - 1;
      ReachableInv(trace[..|actions|], actions[..k], init);
      StepKeepsInv(trace[k], init, actions[k]);
    }
  }

  /** In every reachable state: commands sent = completions consumed + disk_done + expecting_intr;
      disk_done is at most 1, so the assertions of sema_up and sema_down hold; both are clear while
      the lock is free; and a command on its way carries the holder's own address and count. */
  lemma HandshakeSafe(trace: seq<State>, actions: seq<Action>, init: seq<seq<Data>>)
    requires Reachable(trace, actions, init)
    ensures var s := trace[|actions|];
            s.core.issued == s.core.consumed + s.core.sem + (if s.core.expecting then 1 else 0) &&
            s.core.sem <= 1 && (s.core.expecting ==> s.core.sem == 0) &&
            (s.holder.None? ==> s.core.sem == 0 && !s.core.expecting) &&
            forall t :: t in s.pcs && s.pcs[t].Inside? ==>
              s.holder == Some(t) &&
              (s.pcs[t].at.Down? || s.pcs[t].at.Move? ==>
                 s.core.command == Command(s.pcs[t].q.dev, s.pcs[t].q.lba + s.pcs[t].done, Op(s.pcs[t])))
  {
    ReachableInv(trace, actions, init);
  }

  // -------------------------------------------------------- calls and the log

  /** The requests a thread called, in order. */
  function CallsOf(actions: seq<Action>, t: Tid): seq<Request> {
    if actions == [] then []
    else
      var a := actions[|actions| - 1];
      CallsOf(actions[..|actions| - 1], t) + if a.Call? && a.t == t then [a.q] else []
  }

  /** The requests of a thread that are done, in order. */
  function DoneBy(log: seq<Record>, t: Tid): seq<Request> {
    if log == [] then []
    else DoneBy(log[..|log| - 1], t) + if log[|log| - 1].t == t then [log[|log| - 1].q] else []
  }

  function Working(p: Pc): seq<Request> { if p.Idle? then [] else [p.q] }

  lemma SameRequest(c: Core, p: Pc)
    requires CanGo(c, p) && |c.regs| == 5 && |c.disks| == 2
    ensures var (_, p') := Advance(c, p); p'.Idle? || p'.q == p.q
  {
  }

  lemma StepLogs(s: State, a: Action, t: Tid)
    requires Enabled(s, a) && |s.core.regs| == 5 && |s.core.disks| == 2 && t in s.pcs
    ensures var s' := Step(s, a);
            t in s'.pcs && DoneBy(s'.log, t) + Working(s'.pcs[t]) ==
                             DoneBy(s.log, t) + Working(s.pcs[t]) + if a.Call? && a.t == t then [a.q] else []
  {
    if a.Go? {
      SameRequest(s.core, s.pcs[a.t]);
      var (c', p') := Advance(s.core, s.pcs[a.t]);
      if p'.Idle? {
        DoneSnoc(s.log, Record(a.t, s.pcs[a.t].q, s.pcs[a.t].buf), t);
      }
    }
  }

  lemma DoneSnoc(log: seq<Record>, r: Record, t: Tid)
    ensures DoneBy(log + [r], t) == DoneBy(log, t) + if r.t == t then [r.q] else []
  {
    assert (log + [r])[..|log|] == log;
  }

  /** What a thread has done, followed by what it is working on, is exactly what it called. */
  lemma {:induction false} CallsAreDone(trace: seq<State>, actions: seq<Action>, init: seq<seq<Data>>, t: Tid)
    requires Reachable(trace, actions, init) && t in trace[0].pcs
    ensures var s := trace[|actions|];
            t in s.pcs && DoneBy(s.log, t) + Working(s.pcs[t]) == CallsOf(actions, t)
  {
    if actions != [] {
      var k := |actions| - 1;
      LastStep(trace, actions, init);
      CallsAreDone(trace[..|actions|], actions[..k], init, t);
      StepLogs(trace[k], actions[k], t);
    }
  }

  lemma LastStep(trace: seq<State>, actions: seq<Action>, init: seq<seq<Data>>)
    requires Reachable(trace, actions, init) && actions != []
    ensures var k := |actions| - 1;
            Reachable(trace[..|actions|], actions[..k], init) && Inv(trace[k], init) && Enabled(trace[k], actions[k]) &&
            |trace[k].core.regs| == 5 && |trace[k].core.disks| == 2 && trace[|actions|] == Step(trace[k], actions[k])
  {
    ReachableInv(trace[..|actions|], actions[..|actions| - 1], init);
  }

  // --------------------------------------------------------- what a read returns

  predicate Covers(r: Record, dev: nat, b: nat) {
    r.q.write && r.q.dev == dev && r.q.lba <= b < r.q.lba + |r.q.data|
  }

  /** `x` is what the last write to the sector stored there, or what stood there at first. */
  ghost predicate LastStored(init: seq<seq<Data>>, log: seq<Record>, dev: nat, b: nat, x: Data)
    requires |init| == 2 && dev < 2 && b < |init[dev]|
  {
    (x == init[dev][b] && forall i :: 0 <= i < |log| ==> !Covers(log[i], dev, b)) ||
    exists i :: 0 <= i < |log| && Covers(log[i], dev, b) && x == log[i].q.data[b - log[i].q.lba] &&
                forall j :: i < j < |log| ==> !Covers(log[j], dev, b)
  }

  lemma {:induction false} ReplaySector(init: seq<seq<Data>>, log: seq<Record>, dev: nat, b: nat)
    requires |init| == 2 && dev < 2 && b < |init[dev]| && forall i :: 0 <= i < |log| ==> RequestOk(log[i].q, init)
    ensures LastStored(init, log, dev, b, Replay(init, log)[dev][b])
  {
    if log != [] {
      var n := |log| - 1;
      ReplaySector(init, log[..n], dev, b);
      LastStoredSnoc(init, log[..n], log[n], dev, b, Replay(init, log[..n])[dev][b], Replay(init, log)[dev][b]);
      assert log[..n] + [log[n]] == log;
    }
  }

  lemma LastStoredSnoc(init: seq<seq<Data>>, log: seq<Record>, r: Record, dev: nat, b: nat, x: Data, y: Data)
    requires |init| == 2 && dev < 2 && b < |init[dev]| && LastStored(init, log, dev, b, x)
    requires y == if Covers(r, dev, b) then r.q.data[b - r.q.lba] else x
    ensures LastStored(init, log + [r], dev, b, y)
  {
    var log' := log + [r];
    if Covers(r, dev, b) {
      assert Covers(log'[|log|], dev, b);
    } else if i :| 0 <= i < |log| && Covers(log[i], dev, b) && x == log[i].q.data[b - log[i].q.lba] &&
                   forall j :: i < j < |log| ==> !Covers(log[j], dev, b) {
      assert log'[i] == log[i];
    }
  }

  /** Whatever the interleaving, the completed requests form a serial history, in which each thread's
      are those it called, in order: a read returned, sector by sector, what the last write before it
      stored there, and while the lock is free the drives hold what the last writes stored. */
  lemma RequestsAreSerial(trace: seq<State>, actions: seq<Action>, init: seq<seq<Data>>)
    requires Reachable(trace, actions, init)
    ensures var s := trace[|actions|];
            (forall t :: t in trace[0].pcs ==> t in s.pcs && DoneBy(s.log, t) + Working(s.pcs[t]) == CallsOf(actions, t)) &&
            (forall i :: 0 <= i < |s.log| ==> RequestOk(s.log[i].q, init) && ReturnsLastStored(init, s.log[..i], s.log[i].q, s.log[i].result)) &&
            (s.holder.None? ==> HoldLastStored(init, s.log, s.core.disks))
  {
    ReachableInv(trace, actions, init);
    var s := trace[|actions|];
    forall t | t in trace[0].pcs
      ensures t in s.pcs && DoneBy(s.log, t) + Working(s.pcs[t]) == CallsOf(actions, t)
    {
      CallsAreDone(trace, actions, init, t);
    }
    forall i | 0 <= i < |s.log|
      ensures ReturnsLastStored(init, s.log[..i], s.log[i].q, s.log[i].result)
    {
      ReplayHolds(init, s.log[..i]);
      ReadReturns(init, s.log[..i], Replay(init, s.log[..i]), s.log[i].q, s.log[i].result);
    }
    if s.holder.None? {
      ReplayHolds(init, s.log);
    }
  }

  /** `r` is the sectors asked for as the log before left them; a write returns none. */
  ghost predicate ReturnsLastStored(init: seq<seq<Data>>, before: seq<Record>, q: Request, r: seq<Data>)
    requires |init| == 2 && RequestOk(q, init)
  {
    if q.write then r == []
    else |r| == q.count && forall k :: 0 <= k < |r| ==> LastStored(init, before, q.dev, q.lba + k, r[k])
  }

  ghost predicate HoldLastStored(init: seq<seq<Data>>, log: seq<Record>, disks: seq<seq<Data>>)
    requires |init| == 2
  {
    |disks| == 2 && forall dev :: 0 <= dev < 2 ==>
      |disks[dev]| == |init[dev]| && forall b :: 0 <= b < |disks[dev]| ==> LastStored(init, log, dev, b, disks[dev][b])
  }

  lemma ReadReturns(init: seq<seq<Data>>, before: seq<Record>, disks: seq<seq<Data>>, q: Request, r: seq<Data>)
    requires |init| == 2 && RequestOk(q, init) && HoldLastStored(init, before, disks) && r == Expected(disks, q)
    ensures ReturnsLastStored(init, before, q, r)
  {
    if !q.write {
      assert forall k :: 0 <= k < |r| ==> r[k] == disks[q.dev][q.lba + k];
    }
  }

  lemma ReplayHolds(init: seq<seq<Data>>, log: seq<Record>)
    requires |init| == 2 && forall j :: 0 <= j < |log| ==> RequestOk(log[j].q, init)
    ensures HoldLastStored(init, log, Replay(init, log))
  {
    var disks := Replay(init, log);
    forall dev, b | 0 <= dev < 2 && 0 <= b < |disks[dev]|
      ensures LastStored(init, log, dev, b, disks[dev][b])
    {
      ReplaySector(init, log, dev, b);
    }
  }

  // ------------------------------------------------------------------ progress

  /** How far a holder is from its next round, or from leaving. */
  function Rank(c: Core, p: Pc): nat
    requires p.Inside? && (p.at.Select? ==> p.at.reg <= 5)
  {
    match p.at
    case SelectDisk => 15
    case Test => 14
    case Select(k) => 13 - k
    case Flag => 7
    case Issue => 6
    case Move => if p.q.write then 5 else 2
    case Down => if c.expecting then 4 else 3
  }

  predicate Nearer(c: Core, p: Pc, c': Core, p': Pc) {
    p.Inside? && p'.Inside? && p'.q == p.q && (p.at.Select? ==> p.at.reg <= 5) && (p'.at.Select? ==> p'.at.reg <= 5) &&
    p'.done <= p.q.count && (p.done < p'.done || (p'.done == p.done && Rank(c', p') < Rank(c, p)))
  }

  lemma AdvanceNearer(c: Core, p: Pc, base: seq<seq<Data>>)
    requires HolderOk(c, p, base) && CanGo(c, p)
    ensures var (c', p') := Advance(c, p); p'.Idle? || Nearer(c, p, c', p')
  {
    AdvanceKeeps(c, p, base);
  }

  /** The run `trace`, `actions` goes on without new calls. */
  ghost predicate GoesOn(trace: seq<State>, actions: seq<Action>, trace': seq<State>, actions': seq<Action>, init: seq<seq<Data>>) {
    Reachable(trace, actions, init) && Reachable(trace', actions', init) &&
    |actions| <= |actions'| && actions == actions'[..|actions|] && trace == trace'[..|trace|] &&
    forall i :: |actions| <= i < |actions'| ==> !actions'[i].Call?
  }

  lemma GoOn(trace: seq<State>, actions: seq<Action>, init: seq<seq<Data>>, a: Action)
    returns (trace': seq<State>, actions': seq<Action>)
    requires Reachable(trace, actions, init) && Enabled(trace[|actions|], a) && !a.Call?
    ensures GoesOn(trace, actions, trace', actions', init)
    ensures |trace[|actions|].core.regs| == 5 && |trace[|actions|].core.disks| == 2
    ensures trace'[|actions'|] == Step(trace[|actions|], a)
  {
    ReachableInv(trace, actions, init);
    trace', actions' := trace + [Step(trace[|actions|], a)], actions + [a];
    ReachableGrows(trace, actions, init, a, Step(trace[|actions|], a));
  }

  lemma ReachableGrows(trace: seq<State>, actions: seq<Action>, init: seq<seq<Data>>, a: Action, s: State)
    requires Reachable(trace, actions, init) && Enabled(trace[|actions|], a) && !a.Call?
    requires |trace[|actions|].core.regs| == 5 && |trace[|actions|].core.disks| == 2 && s == Step(trace[|actions|], a)
    ensures Reachable(trace + [s], actions + [a], init)
  {
    var trace', actions' := trace + [s], actions + [a];
    assert forall i :: 0 <= i < |trace| ==> trace'[i] == trace[i];
    assert forall i :: 0 <= i < |actions| ==> actions'[i] == actions[i];
  }

  /** The thread inside can be brought out: its next statement, or the interrupt it waits for. */
  lemma {:induction false} HolderFinishes(trace: seq<State>, actions: seq<Action>, init: seq<seq<Data>>, t: Tid)
    returns (trace': seq<State>, actions': seq<Action>)
    requires Reachable(trace, actions, init) && trace[|actions|].holder == Some(t)
    requires t in trace[|actions|].pcs && HolderAt(trace[|actions|], t)
    ensures GoesOn(trace, actions, trace', actions', init) && trace'[|actions'|].holder.None?
    ensures trace'[|actions'|].pcs == trace[|actions|].pcs[t := Idle]
    decreases trace[|actions|].pcs[t].q.count - trace[|actions|].pcs[t].done, Rank(trace[|actions|].core, trace[|actions|].pcs[t])
  {
    trace', actions' := OneNearer(trace, actions, init, t);
    var s' := trace'[|actions'|];
    if s'.holder.Some? {
      ghost var trace1, actions1 := trace', actions';
      trace', actions' := HolderFinishes(trace', actions', init, t);
      GoesOnFurther(trace, actions, trace1, actions1, trace', actions', init);
      assert s'.pcs[t := Idle] == trace[|actions|].pcs[t := Idle];
    }
  }

  lemma OneNearer(trace: seq<State>, actions: seq<Action>, init: seq<seq<Data>>, t: Tid)
    returns (trace': seq<State>, actions': seq<Action>)
    requires Reachable(trace, actions, init) && trace[|actions|].holder == Some(t)
    ensures GoesOn(trace, actions, trace', actions', init)
    ensures var s, s' := trace[|actions|], trace'[|actions'|];
            t in s.pcs && t in s'.pcs && s'.pcs == s.pcs[t := s'.pcs[t]] && (s'.holder.None? <==> s'.pcs[t].Idle?) &&
            (s'.holder.Some? ==> s'.holder == Some(t) && Nearer(s.core, s.pcs[t], s'.core, s'.pcs[t]))
  {
    ReachableInv(trace, actions, init);
    var a := NextOf(trace[|actions|], init, t);
    trace', actions' := GoOn(trace, actions, init, a);
  }

  predicate HolderAt(s: State, t: Tid) {
    t in s.pcs && s.pcs[t].Inside? && s.pcs[t].done <= s.pcs[t].q.count && (s.pcs[t].at.Select? ==> s.pcs[t].at.reg <= 5)
  }

  lemma GoesOnFurther(trace: seq<State>, actions: seq<Action>, trace1: seq<State>, actions1: seq<Action>,
                      trace2: seq<State>, actions2: seq<Action>, init: seq<seq<Data>>)
    requires GoesOn(trace, actions, trace1, actions1, init) && GoesOn(trace1, actions1, trace2, actions2, init)
    ensures GoesOn(trace, actions, trace2, actions2, init)
  {
    assert actions2[..|actions|] == actions1[..|actions|];
    assert trace2[..|trace|] == trace1[..|trace|];
    forall i | |actions| <= i < |actions2|
      ensures !actions2[i].Call?
    {
      if i < |actions1| {
        assert actions2[i] == actions1[i];
      }
    }
  }

  /** What can happen next to the holder, and that it brings it nearer. */
  lemma NextOf(s: State, init: seq<seq<Data>>, t: Tid) returns (a: Action)
    requires Inv(s, init) && s.holder == Some(t)
    ensures HolderAt(s, t) && Enabled(s, a) && !a.Call? && |s.core.regs| == 5 && |s.core.disks| == 2
    ensures var s' := Step(s, a);
            t in s'.pcs && s'.pcs == s.pcs[t := s'.pcs[t]] && (s'.holder.None? <==> s'.pcs[t].Idle?) &&
            (s'.holder.Some? ==> s'.holder == Some(t) && Nearer(s.core, s.pcs[t], s'.core, s'.pcs[t]))
  {
    var base := Replay(init, s.log);
    var p := s.pcs[t];
    if p.at.Down? && s.core.sem == 0 {
      a := Interrupt;
      assert s.pcs == s.pcs[t := p];
    } else {
      a := Go(t);
      AdvanceNearer(s.core, p, base);
    }
  }

  function Busy(s: State): set<Tid> { set t | t in s.pcs && !s.pcs[t].Idle? }

  /** From every reachable state, without any further call, every thread can get out: no interleaving
      of threads and interrupts leads into a deadlock. Each has then done exactly what it called. */
  lemma {:induction false} EveryoneFinishes(trace: seq<State>, actions: seq<Action>, init: seq<seq<Data>>)
    returns (trace': seq<State>, actions': seq<Action>)
    requires Reachable(trace, actions, init)
    ensures GoesOn(trace, actions, trace', actions', init)
    ensures forall t :: t in trace'[|actions'|].pcs ==> trace'[|actions'|].pcs[t].Idle?
    decreases |Busy(trace[|actions|])|
  {
    ReachableInv(trace, actions, init);
    var s := trace[|actions|];
    trace', actions' := trace, actions;
    if t :| t in Busy(s) && (s.holder.Some? ==> s.holder == Some(t)) {
      if s.holder.None? {
        trace', actions' := GoOn(trace, actions, init, Acquire(t));
      }
      ghost var trace1, actions1 := trace', actions';
      trace', actions' := HolderFinishes(trace', actions', init, t);
      GoesOnFurther(trace, actions, trace1, actions1, trace', actions', init);
      ghost var trace2, actions2 := trace', actions';
      FewerBusy(s, trace'[|actions'|], t);
      trace', actions' := EveryoneFinishes(trace', actions', init);
      GoesOnFurther(trace, actions, trace2, actions2, trace', actions', init);
    } else {
      NobodyBusy(s, init);
    }
  }

  lemma FewerBusy(s: State, s': State, t: Tid)
    requires t in Busy(s) && s'.pcs == s.pcs[t := Idle]
    ensures |Busy(s')| < |Busy(s)|
  {
    assert Busy(s') == Busy(s) - {t};
  }

  lemma NobodyBusy(s: State, init: seq<seq<Data>>)
    requires Inv(s, init) && forall t :: t in Busy(s) ==> s.holder.Some? && s.holder != Some(t)
    ensures forall t :: t in s.pcs ==> s.pcs[t].Idle?
  {
    assert s.holder.Some? ==> s.holder.value in Busy(s);
    assert forall t :: t in s.pcs && !s.pcs[t].Idle? ==> t in Busy(s);
  }
}
