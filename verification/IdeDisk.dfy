/**
 The data path of device/ide.c: the LBA28 registers, the 8-bit sector count, and the chunked
 transfer loops of ide_read and ide_write.
 */
module IdeDisk {
  import opened Common

  type Data = seq<nat>          // the 512 bytes of a sector

  const CHUNK: nat := 256

  // ---------------------------------------------------------------- registers

  /** reg_sect_cnt, reg_lba_l, reg_lba_m, reg_lba_h, reg_dev: what select_sector writes, in order. */
  function Pack(dev: nat, lba: nat, count: nat): (r: seq<nat>)
    ensures |r| == 5
  {
    [count % 256, lba % 256, lba / 0x100 % 256, lba / 0x1_0000 % 256, (DevBits(dev) + lba / 0x100_0000) % 256]
  }

  /** BIT_DEV_MBS | BIT_DEV_LBA, with BIT_DEV_DEV for the slave. */
  function DevBits(dev: nat): nat { 0xa0 + 0x40 + (if dev == 1 then 0x10 else 0) }

  /** The code combines the bits with `|`; with the top four address bits this is the sum above. */
  lemma OrIsSum(top: bv8)
    requires top < 16
    ensures 0xa0 | 0x40 | 0x10 | top == (0xa0 + 0x40 + 0x10) + top && 0xa0 | 0x40 | 0 | top == (0xa0 + 0x40) + top
  {
  }

  /** How the drive reads the registers back; a count of 0 means 256 sectors. */
  function RegDev(r: seq<nat>): nat requires |r| == 5 { r[4] / 16 % 2 }

  function RegLba(r: seq<nat>): nat
    requires |r| == 5
  {
    r[1] + 0x100 * r[2] + 0x1_0000 * r[3] + 0x100_0000 * (r[4] % 16)
  }

  /** The same rule the CPU applies to its 8-bit count in read_from_sector and write2sector. */
  function Count8(c: nat): nat { if c % 256 == 0 then CHUNK else c % 256 }

  function RegCount(r: seq<nat>): nat requires |r| == 5 { Count8(r[0]) }

  lemma ByteSplit(lba: nat)
    ensures lba == lba % 256 + 0x100 * (lba / 0x100 % 256) + 0x1_0000 * (lba / 0x1_0000 % 256) + 0x100_0000 * (lba / 0x100_0000)
  {
    assert lba / 0x1_0000 == lba / 0x100 / 256 && lba / 0x100_0000 == lba / 0x1_0000 / 256;
  }

  /** Every 28-bit address and every count from 1 to 256 arrives at the drive as it was meant, and the
      three fixed bits of the device register, LBA mode among them, are set. */
  lemma RegistersRoundTrip(dev: nat, lba: nat, count: nat)
    requires dev < 2 && lba < 0x1000_0000 && 1 <= count <= CHUNK
    ensures var r := Pack(dev, lba, count); RegDev(r) == dev && RegLba(r) == lba && RegCount(r) == count && r[4] / 32 == 7
  {
    ByteSplit(lba);
    assert lba / 0x100_0000 < 16;
  }

  // ------------------------------------------------------------------ sectors

  function Slice(d: seq<Data>, lba: nat, n: nat): seq<Data> {
    if lba + n <= |d| then d[lba..lba + n] else []
  }

  function Overwrite(d: seq<Data>, lba: nat, buf: seq<Data>): (r: seq<Data>)
    ensures |r| == |d|
  {
    if lba + |buf| <= |d| then d[..lba] + buf + d[lba + |buf|..] else d
  }

  lemma SliceJoin(d: seq<Data>, lba: nat, a: nat, b: nat)
    requires lba + a + b <= |d|
    ensures Slice(d, lba, a) + Slice(d, lba + a, b) == Slice(d, lba, a + b)
  {
  }

  lemma OverwriteJoin(d: seq<Data>, lba: nat, buf: seq<Data>, a: nat, b: nat)
    requires a + b <= |buf| && lba + a + b <= |d|
    ensures Overwrite(Overwrite(d, lba, buf[..a]), lba + a, buf[a..a + b]) == Overwrite(d, lba, buf[..a + b])
  {
    assert buf[..a + b] == buf[..a] + buf[a..a + b];
  }

  /** A write stores exactly its sectors and leaves all others alone. */
  lemma OverwriteExact(d: seq<Data>, lba: nat, buf: seq<Data>)
    requires lba + |buf| <= |d|
    ensures Slice(Overwrite(d, lba, buf), lba, |buf|) == buf
    ensures forall i :: 0 <= i < |d| && !(lba <= i < lba + |buf|) ==> Overwrite(d, lba, buf)[i] == d[i]
  {
  }

  // ------------------------------------------------------------------- chunks

  /** secs_op */
  function Chunk(count: nat, done: nat): (op: nat)
    requires done < count
    ensures 1 <= op <= CHUNK && done + op <= count && (op == CHUNK || done + op == count)
  {
    if done + CHUNK <= count then CHUNK else count - done
  }

  /** The first sector of the last chunk. */
  function LastChunk(count: nat): nat
    requires count > 0
  {
    (count - 1) / CHUNK * CHUNK
  }

  /** The requests on which no ASSERT of ide_read or ide_write fails: select_sector checks the
      first address of every chunk, not the last sector of the transfer. */
  predicate Passes(lba: nat, count: nat) { count > 0 && lba + LastChunk(count) <= MAX_LBA }

  lemma ChunkStart(count: nat, done: nat)
    requires done < count && done % CHUNK == 0
    ensures done <= LastChunk(count) && (done + Chunk(count, done) < count ==> done < LastChunk(count))
    ensures done + Chunk(count, done) == count ==> done == LastChunk(count)
  {
  }

  /** It is exactly the chunk starts that are checked. */
  lemma PassesIff(lba: nat, count: nat)
    ensures Passes(lba, count) <==> count > 0 && forall done :: 0 <= done < count && done % CHUNK == 0 ==> lba + done <= MAX_LBA
  {
    if count > 0 {
      var last := LastChunk(count);
      assert last < count && last % CHUNK == 0;
      forall done | 0 <= done < count && done % CHUNK == 0
        ensures done <= last
      {
        ChunkStart(count, done);
      }
    }
  }

  lemma PassesSoFar(lba: nat, count: nat, done: nat)
    requires done < count && done % CHUNK == 0
    ensures lba + done > MAX_LBA ==> !Passes(lba, count)
    ensures done + Chunk(count, done) < count ==> (done + Chunk(count, done)) % CHUNK == 0
    ensures done + Chunk(count, done) == count ==> (Passes(lba, count) <==> lba + done <= MAX_LBA)
  {
    ChunkStart(count, done);
  }

  // --------------------------------------------------------------- the driver

  /** One IDE channel with its two drives, as one thread alone sees it. */
  class Channel {
    var regs: seq<nat>
    var disks: seq<seq<Data>>

    constructor (disks: seq<seq<Data>>)
      requires |disks| == 2
      ensures Valid() && this.disks == disks
    {
      this.disks := disks;
      regs := [0, 0, 0, 0, 0];
    }

    ghost predicate Valid()
      reads this
    {
      |regs| == 5 && |disks| == 2
    }

    method SelectDisk(dev: nat)
      requires Valid()
      modifies this`regs
      ensures regs == old(regs)[4 := DevBits(dev)]
    {
      regs := regs[4 := DevBits(dev)];
    }

    method SelectSector(dev: nat, lba: nat, count: nat)
      requires Valid()
      modifies this`regs
      ensures regs == Pack(dev, lba, count)
    {
      regs := regs[0 := count % 256];
      regs := regs[1 := lba % 256];
      regs := regs[2 := lba / 0x100 % 256];
      regs := regs[3 := lba / 0x1_0000 % 256];
      regs := regs[4 := (DevBits(dev) + lba / 0x100_0000) % 256];
    }

    /** What the drive hands out on READ SECTOR(S): the sectors its registers name. */
    function DriveReads(): seq<Data>
      requires Valid()
      reads this
    {
      Slice(disks[RegDev(regs)], RegLba(regs), RegCount(regs))
    }

    /** What the drive stores on WRITE SECTOR(S). */
    method DriveWrites(buf: seq<Data>)
      requires Valid() && |buf| == RegCount(regs)
      modifies this`disks
      ensures disks == old(disks)[RegDev(regs) := Overwrite(old(disks)[RegDev(regs)], RegLba(regs), buf)]
    {
      var dev := RegDev(regs);
      disks := disks[dev := Overwrite(disks[dev], RegLba(regs), buf)];
    }

    /** One round of the loop: registers, command, data. */
    method ReadChunk(dev: nat, lba: nat, op: nat) returns (part: seq<Data>)
      requires Valid() && dev < 2 && lba <= MAX_LBA && 1 <= op <= CHUNK
      modifies this`regs
      ensures Valid() && part == Slice(disks[dev], lba, op)
    {
      SelectSector(dev, lba, op);
      RegistersRoundTrip(dev, lba, op);
      part := DriveReads();
    }

    method WriteChunk(dev: nat, lba: nat, part: seq<Data>)
      requires Valid() && dev < 2 && lba <= MAX_LBA && 1 <= |part| <= CHUNK
      modifies this`regs, this`disks
      ensures Valid() && disks == old(disks)[dev := Overwrite(old(disks)[dev], lba, part)]
    {
      SelectSector(dev, lba, |part|);
      RegistersRoundTrip(dev, lba, |part|);
      DriveWrites(part);
    }

    /** ide_read: on success exactly the sectors asked for, in order; it panics exactly when some
        chunk starts beyond max_lba or nothing is asked for. */
    method IdeRead(dev: nat, lba: nat, count: nat) returns (ok: bool, buf: seq<Data>)
      requires Valid() && dev < 2 && lba + count <= |disks[dev]|
      modifies this`regs
      ensures Valid() && (ok <==> Passes(lba, count))
      ensures ok ==> buf == disks[dev][lba..lba + count]
    {
      ok, buf := false, [];
      if lba > MAX_LBA || count == 0 {
        return;
      }
      SelectDisk(dev);
      var done := 0;
      while done < count
        invariant Valid() && done <= count && buf == Slice(disks[dev], lba, done)
        invariant done < count ==> done % CHUNK == 0
        invariant done == count ==> Passes(lba, count)
      {
        var op := Chunk(count, done);
        PassesSoFar(lba, count, done);
        if lba + done > MAX_LBA {
          return;
        }
        var part := ReadChunk(dev, lba + done, op);
        SliceJoin(disks[dev], lba, done, op);
        buf := buf + part;
        done := done + op;
      }
      ok := true;
    }

    /** ide_write: `done` sectors are stored, all of them exactly when no assertion fails, otherwise
        those of the chunks before the first that starts beyond max_lba; nothing else on either drive
        changes. */
    method IdeWrite(dev: nat, lba: nat, buf: seq<Data>) returns (ok: bool, done: nat)
      requires Valid() && dev < 2 && lba + |buf| <= |disks[dev]|
      modifies this`regs, this`disks
      ensures Valid() && (ok <==> Passes(lba, |buf|)) && done <= |buf| && (ok ==> done == |buf|)
      ensures !ok && buf != [] ==> done % CHUNK == 0 && lba + done > MAX_LBA && (done > 0 ==> lba + done - CHUNK <= MAX_LBA)
      ensures disks == old(disks)[dev := Overwrite(old(disks)[dev], lba, buf[..done])]
    {
      ok, done := false, 0;
      assert Overwrite(disks[dev], lba, buf[..0]) == disks[dev];
      if lba > MAX_LBA || |buf| == 0 {
        return;
      }
      SelectDisk(dev);
      while done < |buf|
        invariant Valid() && done <= |buf|
        invariant disks == old(disks)[dev := Overwrite(old(disks)[dev], lba, buf[..done])]
        invariant done < |buf| ==> done % CHUNK == 0
        invariant done == |buf| ==> Passes(lba, |buf|)
        invariant 0 < done < |buf| ==> lba + done - CHUNK <= MAX_LBA
      {
        var op := Chunk(|buf|, done);
        PassesSoFar(lba, |buf|, done);
        if lba + done > MAX_LBA {
          return;
        }
        OverwriteJoin(old(disks)[dev], lba, buf, done, op);
        ghost var d := disks;
        WriteChunk(dev, lba + done, buf[done..done + op]);
        assert disks == d[dev := Overwrite(old(disks)[dev], lba, buf[..done + op])];
        done := done + op;
      }
      ok := true;
    }
  }

  /** Reading back what was just written, on the same channel. */
  method WriteThenRead(c: Channel, dev: nat, lba: nat, buf: seq<Data>) returns (back: seq<Data>)
    requires c.Valid() && dev < 2 && lba + |buf| <= |c.disks[dev]| && Passes(lba, |buf|)
    modifies c
    ensures back == buf
    ensures c.Valid() && c.disks[1 - dev] == old(c.disks[1 - dev]) && |c.disks[dev]| == old(|c.disks[dev]|)
    ensures forall i :: 0 <= i < |c.disks[dev]| && !(lba <= i < lba + |buf|) ==> c.disks[dev][i] == old(c.disks[dev][i])
  {
    var ok, done := c.IdeWrite(dev, lba, buf);
    assert buf[..done] == buf;
    OverwriteExact(old(c.disks[dev]), lba, buf);
    ok, back := c.IdeRead(dev, lba, |buf|);
  }
}
