/** The inode table on top of the block cache: finding, reading, writing and sharing inodes. */
module Inodes {
  import opened Config
  import opened Bytes
  import opened Device
  import opened Superblock
  import opened Cache
  import opened Placement

  /** A slot of the table: the part that resides on the device, and the part kept in memory only. */
  datatype Inode = Inode(raw: InodeRaw, dev: Dev, ino: u32, count: byte, mounted: bool, dirty: bool)

  /** The superblock of a device is in the table, and its geometry lets the inode be located. */
  predicate Locatable(w: Fs, dev: Dev, ino: u32) {
    && SuperGet(w.supers, dev).Some?
    && Divisible(GeoOf(w, dev)) && Group(GeoOf(w, dev), ino) < MAX_GROUPS
  }

  function GeoOf(w: Fs, dev: Dev): Geometry
    requires SuperGet(w.supers, dev).Some?
  {
    w.supers[SuperGet(w.supers, dev).value].Geo()
  }

  lemma {:induction false} OffsetFits(s: Geometry, groups: BlockData, ino: u32)
    requires Divisible(s) && Group(s, ino) < MAX_GROUPS
    ensures Locate(s, groups, ino).offset + s.inodeSize <= BLOCK_SIZE
  {
    PerBlockFits(s);
    OffsetInBlock(Rem(Index(s, ino), InodesPerBlock(s)), InodesPerBlock(s), s.inodeSize);
  }

  /** Finds where an inode resides, by way of the group block; None is a panic. */
  ghost function GroupFind(w: Fs, dev: Dev, ino: u32, robust: Robust): (r: Option<(Fs, Place)>)
    requires Locatable(w, dev, ino)
    ensures r.Some? ==> r.value.1.offset + GeoOf(w, dev).inodeSize <= BLOCK_SIZE
    ensures r.Some? ==> |r.value.0.supers| == |w.supers|
  {
    match Get(w, Key(dev, GROUP_BLOCK))
    case None => None
    case Some((w1, p)) =>
      OffsetFits(GeoOf(w, dev), w1.slots[p].data, ino);
      Some((Put(w1, p, true, robust), Locate(GeoOf(w, dev), w1.slots[p].data, ino)))
  }

  /** The `size` bytes of a block from an offset on. */
  function At(data: BlockData, offset: nat, size: nat): (bytes: seq<byte>)
    requires offset + size <= BLOCK_SIZE
    ensures |bytes| == size
  {
    data[offset..offset + size]
  }

  /** A record read in: only the fields that reside on the device change, and it is clean. */
  function Loaded(i: Inode, bytes: seq<byte>): Inode
    requires |bytes| <= INODE_BYTES
  {
    i.(raw := Splice(i.raw, 0, bytes), dirty := false)
  }

  /** Copies a dirty inode from its block (or to it) and marks it clean; None is a panic. */
  ghost function InodeRw(w: Fs, i: Inode, read: bool, robust: Robust): (r: Option<(Fs, Inode)>)
    requires i.dirty ==> Locatable(w, i.dev, i.ino)
    ensures r.Some? ==> |r.value.0.supers| == |w.supers|
  {
    if !i.dirty then Some((w, i))
    else
      var size := GeoOf(w, i.dev).inodeSize;
      match GroupFind(w, i.dev, i.ino, robust)
      case None => None
      case Some((w1, place)) =>
        match Get(w1, Key(i.dev, place.blk))
        case None => None
        case Some((w2, p)) =>
          var w3 := if read then w2 else Write(w2, p, place.offset, i.raw[..size]);
          var i' := if read then Loaded(i, At(w2.slots[p].data, place.offset, size)) else i.(dirty := false);
          Some((Put(w3, p, true, robust), i'))
  }

  // ----- The table -----

  /** The first slot that holds an inode. */
  predicate FoundAt(table: seq<Inode>, dev: Dev, ino: u32, n: nat) {
    && n < |table| && table[n].dev == dev && table[n].ino == ino
    && forall m :: 0 <= m < n ==> !(table[m].dev == dev && table[m].ino == ino)
  }

  /** The first slot in nobody's use. */
  predicate FreeAt(table: seq<Inode>, n: nat) {
    n < |table| && table[n].count == 0 && forall m :: 0 <= m < n ==> table[m].count != 0
  }

  ghost function Find(table: seq<Inode>, dev: Dev, ino: u32): (r: Option<nat>)
    ensures r.Some? ==> FoundAt(table, dev, ino, r.value)
    ensures r.None? ==> forall n: nat :: !FoundAt(table, dev, ino, n)
  {
    if n: nat :| FoundAt(table, dev, ino, n) then Some(n) else None
  }

  ghost function FindFree(table: seq<Inode>): (r: Option<nat>)
    ensures r.Some? ==> FreeAt(table, r.value)
    ensures r.None? ==> forall n: nat :: !FreeAt(table, n)
  {
    if n: nat :| FreeAt(table, n) then Some(n) else None
  }

  /** An inode record about to be read in. */
  function Fresh(slot: Inode, dev: Dev, ino: u32): Inode {
    Inode(slot.raw, dev, ino, 1, false, true)
  }

  /** The new cache and table, and the slot of the inode; None is a panic. */
  ghost function InodeGet(
    w: Fs, table: seq<Inode>, dev: Dev, ino: u32, robust: Robust): (r: Option<(Fs, seq<Inode>, nat)>)
    requires Locatable(w, dev, ino)
    ensures r.Some? ==> |r.value.0.supers| == |w.supers|
  {
    match Find(table, dev, ino)
    case Some(n) => Some((w, table[n := table[n].(count := Inc8(table[n].count))], n))
    case None =>
      match FindFree(table)
      case None => None
      case Some(n) =>
        match InodeRw(w, Fresh(table[n], dev, ino), true, robust)
        case None => None
        case Some((w', i)) => Some((w', table[n := i], n))
  }

  // Offsets of inode fields on the device.
  const I_ATIME := 8
  const I_FLAGS := 32

  predicate KeepsAccessTime(i: Inode) {
    U32(i.raw, I_FLAGS) as bv32 & EXT2_NOATIME_FL == EXT2_NOATIME_FL
  }

  /** The inode as its last holder leaves it: the access time is updated unless the inode says not to. */
  function Released(i: Inode, now: u32): (r: Inode)
    ensures r == i.(raw := r.raw, dirty := r.dirty)
    ensures KeepsAccessTime(i) ==> r == i
    ensures !KeepsAccessTime(i) ==> r.dirty && U32(r.raw, I_ATIME) == now
    ensures forall n :: 0 <= n < INODE_BYTES && !(I_ATIME <= n < I_ATIME + 4) ==> r.raw[n] == i.raw[n]
  {
    FieldReads(i.raw, I_ATIME, now);
    SpliceBytes(i.raw, I_ATIME, Bytes32(now));
    if KeepsAccessTime(i) then i else i.(raw := PutU32(i.raw, I_ATIME, now), dirty := true)
  }

  /** The record that inode_put writes out once its count is 0, and the clock after reading it. */
  function LastPut(w: Fs, i: Inode): Inode { Released(i.(count := 0), w.clock.Now()) }

  function LastPutClock(w: Fs, i: Inode): Fs {
    if KeepsAccessTime(i) then w else w.(clock := w.clock.After())
  }

  /** Gives back a reference; the last one writes the inode to its block. */
  ghost function InodePut(w: Fs, table: seq<Inode>, n: nat, robust: Robust): Option<(Fs, seq<Inode>)>
    requires n < |table| && Locatable(w, table[n].dev, table[n].ino)
  {
    var i := table[n];
    if Dec8(i.count) > 0 then Some((w, table[n := i.(count := Dec8(i.count))]))
    else
      match InodeRw(LastPutClock(w, i), LastPut(w, i), false, robust)
      case None => None
      case Some((w', i')) => Some((w', table[n := i']))
  }
}
