/** The superblock table and the clock that stamps it. */
module Superblock {
  import opened Config
  import opened Bytes

  // Offsets of superblock fields on the device.
  const S_INODES_COUNT := 0
  const S_LOG_BLOCK_SIZE := 24
  const S_INODES_PER_GROUP := 40
  const S_MTIME := 44
  const S_WTIME := 48
  const S_MNT_COUNT := 52
  const S_STATE := 58
  const S_INODE_SIZE := 88
  const S_LAST_MOUNTED := 136

  /** What places inodes on a device. */
  datatype Geometry = Geometry(blockSize: int, inodeSize: nat, inodesPerGroup: u32, inodesCount: u32)

  /** A slot of the table: the part copied from the device, and the part kept in memory only.
      Inode pointers are slot numbers of the inode table. */
  datatype Super = Super(
    raw: SuperRaw, dev: Dev, blockSize: int,
    mountPoint: Option<nat>, rootDir: Option<nat>, dirty: bool)
  {
    function Geo(): Geometry {
      Geometry(blockSize, U16(raw, S_INODE_SIZE), U32(raw, S_INODES_PER_GROUP), U32(raw, S_INODES_COUNT))
    }
    function WTime(): u32 { U32(raw, S_WTIME) }

    /** The effect of one write to the device: stamp the time of last write. */
    function Stamped(now: u32): Super { this.(raw := PutU32(raw, S_WTIME, now), dirty := true) }

    /** Everything but what a write to the device stamps. */
    function Erased(): Super { this.(raw := PutU32(raw, S_WTIME, 0), dirty := false) }
  }

  /** The system clock: the readings it will give, and how many were taken. */
  datatype Clock = Clock(readings: nat -> u32, taken: nat) {
    function Now(): u32 { readings(taken) }
    function After(): Clock { Clock(readings, taken + 1) }
  }

  /** The first slot from `i` on that holds `dev`. */
  function SuperFrom(supers: seq<Super>, dev: Dev, i: nat): (r: Option<nat>)
    requires i <= |supers|
    ensures r.Some? ==> i <= r.value < |supers| && supers[r.value].dev == dev
    ensures forall j :: i <= j < (if r.Some? then r.value else |supers|) ==> supers[j].dev != dev
    decreases |supers| - i
  {
    if i == |supers| then None
    else if supers[i].dev == dev then Some(i)
    else SuperFrom(supers, dev, i + 1)
  }

  function SuperGet(supers: seq<Super>, dev: Dev): Option<nat> { SuperFrom(supers, dev, 0) }

  /** Equal tables up to write stamps. */
  predicate SameButStamps(s1: seq<Super>, s2: seq<Super>) {
    && |s1| == |s2|
    && forall i :: 0 <= i < |s1| ==> s1[i].Erased() == s2[i].Erased()
  }

  lemma {:induction false} StampsReflexive(s: seq<Super>)
    ensures SameButStamps(s, s)
  {}

  lemma {:induction false} StampsCompose(s1: seq<Super>, s2: seq<Super>, s3: seq<Super>)
    requires SameButStamps(s1, s2) && SameButStamps(s2, s3)
    ensures SameButStamps(s1, s3)
  {}

  lemma {:induction false} StampKeepsRest(s: Super, now: u32)
    ensures s.Stamped(now).Erased() == s.Erased()
  {
    var r := PutU32(s.raw, S_WTIME, now);
    assert PutU32(r, S_WTIME, 0) == PutU32(s.raw, S_WTIME, 0);
  }

  /** Stamps touch none of the fields that locate inodes, nor which device a slot holds. */
  lemma {:induction false} LayoutKept(s1: Super, s2: Super)
    requires s1.Erased() == s2.Erased()
    ensures s1.Geo() == s2.Geo() && s1.dev == s2.dev && s1.rootDir == s2.rootDir
  {
    ErasedField(s1.raw);
    ErasedField(s2.raw);
  }

  lemma {:induction false} ErasedField(raw: SuperRaw)
    ensures var r := PutU32(raw, S_WTIME, 0);
      && U32(r, S_INODES_COUNT) == U32(raw, S_INODES_COUNT)
      && U32(r, S_INODES_PER_GROUP) == U32(raw, S_INODES_PER_GROUP)
      && U16(r, S_INODE_SIZE) == U16(raw, S_INODE_SIZE)
  {
    FieldsMissed(raw, S_WTIME, Bytes32(0), S_INODES_COUNT);
    FieldsMissed(raw, S_WTIME, Bytes32(0), S_INODES_PER_GROUP);
    FieldsMissed(raw, S_WTIME, Bytes32(0), S_INODE_SIZE);
  }

  /** Tables equal up to stamps find every device in the same slot. */
  lemma {:induction false} SameSlot(s1: seq<Super>, s2: seq<Super>, dev: Dev)
    requires SameButStamps(s1, s2)
    ensures SuperGet(s1, dev) == SuperGet(s2, dev)
  {
    assert forall i :: 0 <= i < |s1| ==> s1[i].Erased().dev == s2[i].Erased().dev;
  }
}
