/**
 struct dir_entry as bytes: why a sector may be modelled as a sequence of entries, and which
 stored names a search can find again.
 */
module DirBytes {
  import opened Common
  import opened DirStore

  type Bytes = seq<nat>

  const SECTOR_SIZE: nat := 512

  function Le32(x: nat): (r: Bytes)
    ensures |r| == 4
  {
    [x % 256, x / 256 % 256, x / 65536 % 256, x / 16777216 % 256]
  }

  function FromLe32(b: Bytes): nat
    requires |b| == 4
  {
    b[0] + 256 * b[1] + 65536 * b[2] + 16777216 * b[3]
  }

  function NameBytes(s: string): (r: Bytes)
    ensures |r| == |s| && forall i :: 0 <= i < |s| ==> r[i] == s[i] as int
  {
    seq(|s|, i requires 0 <= i < |s| => s[i] as int)
  }

  /** create_dir_entry on a zeroed entry: name, inode number, type. */
  function Encode(e: DirEntry): (r: Bytes)
    requires |e.name| <= NAME_LEN
    ensures |r| == ENTRY_SIZE
  {
    NameBytes(e.name) + Zeros(NAME_LEN - |e.name|) + Le32(e.ino) + Le32(e.ftype)
  }

  /** The string that strcmp sees at the start of `b`. */
  function CString(b: Bytes): Bytes {
    if b == [] || b[0] == 0 then [] else [b[0]] + CString(b[1..])
  }

  function Decode(b: Bytes): (Bytes, nat, nat)
    requires |b| == ENTRY_SIZE
  {
    (CString(b), FromLe32(b[NAME_LEN..NAME_LEN + 4]), FromLe32(b[NAME_LEN + 4..]))
  }

  lemma {:induction false} CStringStops(s: Bytes, rest: Bytes)
    requires forall i :: 0 <= i < |s| ==> s[i] != 0
    ensures CString(s + rest) == s + CString(rest)
  {
    if s == [] {
      assert s + rest == rest;
    } else {
      assert (s + rest)[1..] == s[1..] + rest;
      CStringStops(s[1..], rest);
    }
  }

  lemma Le32RoundTrip(x: nat)
    requires x < 0x1_0000_0000
    ensures FromLe32(Le32(x)) == x
  {
    assert x / 65536 == x / 256 / 256 && x / 16777216 == x / 65536 / 256;
    assert x == 256 * (x / 256) + x % 256;
    assert x / 256 == 256 * (x / 65536) + x / 256 % 256;
    assert x / 65536 == 256 * (x / 16777216) + x / 65536 % 256;
  }

  /** A stored name is found again exactly if it leaves room for its terminator, or the first byte
      of the inode number happens to be zero. The assertion in create_dir_entry admits both. */
  lemma NameFoundIff(e: DirEntry)
    requires |e.name| <= NAME_LEN && NoNul(e.name)
    ensures CString(Encode(e)) == NameBytes(e.name) <==> |e.name| < NAME_LEN || e.ino % 256 == 0
  {
    var rest := Zeros(NAME_LEN - |e.name|) + Le32(e.ino) + Le32(e.ftype);
    assert Encode(e) == NameBytes(e.name) + rest;
    CStringStops(NameBytes(e.name), rest);
    if |e.name| == NAME_LEN {
      assert rest[0] == e.ino % 256;
    } else {
      assert rest[0] == 0;
    }
  }

  /** The layout on disk: 16 bytes of name, zero behind it, then inode number and type, four bytes
      each, least significant first. */
  lemma EntryLayout(e: DirEntry)
    requires |e.name| <= NAME_LEN && e.ino < 0x1_0000_0000 && e.ftype < 0x1_0000_0000
    ensures var b := Encode(e);
            (forall i :: 0 <= i < 16 ==> b[i] == if i < |e.name| then e.name[i] as int else 0) &&
            b[16] + 0x100 * b[17] + 0x1_0000 * b[18] + 0x100_0000 * b[19] == e.ino &&
            b[20] + 0x100 * b[21] + 0x1_0000 * b[22] + 0x100_0000 * b[23] == e.ftype &&
            forall i :: 0 <= i < |b| && i >= 16 ==> b[i] < 256
  {
    var b := Encode(e);
    assert b[16..20] == Le32(e.ino) && b[20..24] == Le32(e.ftype);
    Le32RoundTrip(e.ino);
    Le32RoundTrip(e.ftype);
    assert forall i :: 16 <= i < 20 ==> b[i] == b[16..20][i - 16];
    assert forall i :: 20 <= i < 24 ==> b[i] == b[20..24][i - 20];
  }

  /** Entries with names under 16 bytes survive the way through a sector. */
  lemma EntryRoundTrip(e: DirEntry)
    requires |e.name| < NAME_LEN && NoNul(e.name) && e.ino < 0x1_0000_0000 && e.ftype < 0x1_0000_0000
    ensures Decode(Encode(e)) == (NameBytes(e.name), e.ino, e.ftype)
  {
    NameFoundIff(e);
    var b := Encode(e);
    assert b[NAME_LEN..NAME_LEN + 4] == Le32(e.ino);
    assert b[NAME_LEN + 4..] == Le32(e.ftype);
    Le32RoundTrip(e.ino);
    Le32RoundTrip(e.ftype);
  }

  function SlotBytes(sector: Bytes, k: nat): (r: Bytes)
    requires |sector| == SECTOR_SIZE && k < SLOTS
    ensures |r| == ENTRY_SIZE
  {
    sector[ENTRY_SIZE * k..ENTRY_SIZE * k + ENTRY_SIZE]
  }

  /** memcpy(dir_e + k, p_de, dir_entry_size) */
  function PutSlot(sector: Bytes, k: nat, b: Bytes): (r: Bytes)
    requires |sector| == SECTOR_SIZE && k < SLOTS && |b| == ENTRY_SIZE
    ensures |r| == SECTOR_SIZE
  {
    sector[..ENTRY_SIZE * k] + b + sector[ENTRY_SIZE * k + ENTRY_SIZE..]
  }

  /** Writing one slot changes that slot and no other: slots never overlap or cross the sector. */
  lemma PutSlotExact(sector: Bytes, k: nat, b: Bytes, j: nat)
    requires |sector| == SECTOR_SIZE && k < SLOTS && j < SLOTS && |b| == ENTRY_SIZE
    ensures SlotBytes(PutSlot(sector, k, b), j) == if j == k then b else SlotBytes(sector, j)
  {
    var s' := PutSlot(sector, k, b);
    assert SlotBytes(s', k) == b;
    if j < k {
      assert ENTRY_SIZE * j + ENTRY_SIZE <= ENTRY_SIZE * k;
      assert SlotBytes(s', j) == SlotBytes(sector, j);
    } else if j > k {
      assert ENTRY_SIZE * k + ENTRY_SIZE <= ENTRY_SIZE * j;
      assert SlotBytes(s', j) == SlotBytes(sector, j);
    }
  }
}
