/** A small root device: the server boots from it, and an inode written out to a shared block does
    not reach it. */
module Floppy {
  import opened Config
  import opened Bytes
  import opened Device
  import opened Superblock
  import opened Ring
  import opened Cache
  import opened Runs
  import opened CacheProofs
  import opened Durability
  import opened Placement
  import opened Inodes
  import opened InodeProofs
  import opened InodeRuns
  import opened InodeDurability
  import opened InodeTable
  import TableSteps
  import opened Mounting

  const PID := 1
  const INODES := 8
  const TABLE := 5

  /** Six blocks: the superblock in block 1, one group descriptor in block 2, and an inode table of
      eight inodes in block 5. */
  function ImageByte(j: nat): byte {
    if j == BLOCK_SIZE + S_INODES_COUNT || j == BLOCK_SIZE + S_INODES_PER_GROUP then INODES
    else if j == BLOCK_SIZE + S_INODE_SIZE then INODE_BYTES
    else if j == 2 * BLOCK_SIZE + BG_INODE_TABLE then TABLE
    else 0
  }

  function Image(): (image: seq<byte>)
    ensures |image| == 6 * BLOCK_SIZE
  {
    seq(6 * BLOCK_SIZE, j requires 0 <= j < 6 * BLOCK_SIZE => ImageByte(j))
  }

  function Units(): map<Target, seq<byte>> { map[Target(PID, ROOT_MIN) := Image()] }

  /** The state in which the floppy's driver is registered and nothing else has happened. */
  function Plugged(clock: Clock): Fs { Registered(ColdFs(Units(), clock), PID) }

  lemma {:induction false} PluggedBlock(clock: Clock, blk: nat)
    requires blk < 6
    ensures var io, k := Plugged(clock).io, Key(ROOT_DEV, blk);
      && Addressable(io, k) && k in DeviceMap(io)
      && DeviceMap(io)[k] == DeviceBlock(io, k) == Image()[blk * BLOCK_SIZE..blk * BLOCK_SIZE + BLOCK_SIZE]
  {
    hide Image;
    BlockOffAliases(blk, blk);
  }

  function FloppyGeometry(): Geometry { Geometry(BLOCK_SIZE, INODE_BYTES, INODES, INODES) }

  lemma {:induction false} SuperblockOf(clock: Clock)
    ensures Key(ROOT_DEV, SUPER_BLOCK) in DeviceMap(Plugged(clock).io)
    ensures GeoIn(RootPart(DeviceMap(Plugged(clock).io))) == FloppyGeometry()
  {
    hide DeviceMap, MajMinToDev, Plugged, Image, U16, U32;
    PluggedBlock(clock, SUPER_BLOCK);
    SmallField(BLOCK_SIZE, SUPER_BYTES, S_INODES_COUNT);
    SmallField(BLOCK_SIZE, SUPER_BYTES, S_LOG_BLOCK_SIZE);
    SmallField(BLOCK_SIZE, SUPER_BYTES, S_INODES_PER_GROUP);
    SmallField(BLOCK_SIZE, SUPER_BYTES, S_INODE_SIZE);
    assert RootPart(DeviceMap(Plugged(clock).io)) == Image()[BLOCK_SIZE..BLOCK_SIZE + SUPER_BYTES];
    assert ShiftedSize(0) == BLOCK_SIZE;
  }

  /** A field of the image with no more than its lowest byte set. */
  lemma {:induction false} SmallField(from: nat, size: nat, at: nat)
    requires from + size <= 6 * BLOCK_SIZE && at + 4 <= size
    requires ImageByte(from + at + 1) == ImageByte(from + at + 2) == ImageByte(from + at + 3) == 0
    ensures var part := Image()[from..from + size];
      U32(part, at) == ImageByte(from + at) && U16(part, at) == ImageByte(from + at)
  {
    PartAt(from, size, at);
    PartAt(from, size, at + 1);
    PartAt(from, size, at + 2);
    PartAt(from, size, at + 3);
    hide Image, ImageByte;
  }

  lemma {:induction false} PartAt(from: nat, size: nat, at: nat)
    requires from + size <= 6 * BLOCK_SIZE && at < size
    ensures Image()[from..from + size][at] == ImageByte(from + at)
  {
    hide ImageByte;
  }

  lemma {:induction false} GroupBlockOf(clock: Clock)
    ensures Key(ROOT_DEV, GROUP_BLOCK) in DeviceMap(Plugged(clock).io)
    ensures TableOf(DeviceMap(Plugged(clock).io)[Key(ROOT_DEV, GROUP_BLOCK)], 0) == TABLE
  {
    PluggedBlock(clock, GROUP_BLOCK);
    hide DeviceMap, MajMinToDev, Plugged, Image;
    SmallField(2 * BLOCK_SIZE, BLOCK_SIZE, BG_INODE_TABLE);
  }

  /** Eight inodes of 128 bytes fill one block. */
  lemma {:induction false} OneBlock(ino: u32)
    requires 1 <= ino <= INODES
    ensures var g := FloppyGeometry();
      && Divisible(g) && InodesPerBlock(g) == 8 && TableBlocks(g) == 1
      && Group(g, ino) == 0 && Quot(Index(g, ino), InodesPerBlock(g)) == 0
  {
    QuotIsDivision(BLOCK_SIZE, INODE_BYTES);
    QuotIsDivision(15, 8);
  }

  /** The floppy carries a well-formed file system. */
  lemma {:induction false} FloppyOk(clock: Clock)
    ensures RootDiskOk(DeviceMap(Plugged(clock).io))
  {
    hide MajMinToDev, Plugged, DeviceMap, InodesPerBlock, TableBlocks, TableOf, Quot, Rem;
    var d, g := DeviceMap(Plugged(clock).io), FloppyGeometry();
    SuperblockOf(clock);
    GroupBlockOf(clock);
    OneBlock(1);
    OneGroupLayout(g, d[Key(ROOT_DEV, GROUP_BLOCK)]);
    forall ino: u32 | ValidIno(g, ino) ensures InodeOnDisk(d, g, ROOT_DEV, ino) {
      OneBlock(ino);
      PluggedBlock(clock, TABLE);
    }
  }

  /** What the server is after the floppy's driver registered. */
  ghost predicate Booted(clock: Clock, robust: Robust, r: Root) {
    && RegisterRoot(ColdFs(Units(), clock), ColdInodes(), PID, robust) == Some(r)
    && RootMounted(Plugged(clock), r.w, ColdInodes(), r.t, r.rootDir, 3)
    && |r.w.slots| == NUM_BLOCKS && forall p :: 0 <= p < NUM_BLOCKS ==> r.w.slots[p].count == 0
  }

  /** The server boots from the floppy. */
  lemma {:induction false} FloppyBoots(clock: Clock, robust: Robust) returns (r: Root)
    ensures Booted(clock, robust, r)
  {
    FloppyOk(clock);
    ColdIsCold(Units(), clock);
    hide ColdStart, RootDiskOk, DeviceMap, RegisterRoot, RootMounted;
    ColdStartMountsRoot(ColdFs(Units(), clock), ColdInodes(), PID, robust);
    r := RegisterRoot(ColdFs(Units(), clock), ColdInodes(), PID, robust).value;
  }

  /** A cache at rest, with nothing unwritten: getting a block makes it held, leaves another slot
      unused, and keeps the device equal to the logical disk. */
  lemma {:induction false} GetAtRest(w: Fs, k: Key)
    requires Inv(w) && FreeClean(w) && Addressable(w.io, k)
    requires |w.slots| > 1 && forall p :: 0 <= p < |w.slots| ==> w.slots[p].count == 0
    ensures Get(w, k).Some?
    ensures var w1 := Get(w, k).value.0;
      && Inv(w1) && Logical(w1) == Logical(w) && SameButStamps(w.supers, w1.supers)
      && HeldBlock(w1, k) && !AllHeld(w1)
      && Addressable(w1.io, k) && k in Logical(w1) && DeviceBlock(w1.io, k) == Logical(w1)[k]
  {
    hide Inv, Addressable, DeviceBlock, Get, LogicalAt;
    GetPanics(w, k);
    assert w.slots[0].count == 0 && w.slots[1].count == 0;
    InLogical(w, k);
    var (w1, p) := Get(w, k).value;
    GetKeeps(w, k);
    GotSlots(w, k);
    QuietGet(w, k);
    StampsReflexive(w.supers);
    assert Caches(w1.slots, p, k) && w1.slots[p].count > 0;
    assert w1.slots[if p == 0 then 1 else 0].count == 0;
    CleanMeansOnDevice(w, k);
    InLogical(w1, k);
  }

  lemma {:induction false} InLogical(w: Fs, k: Key)
    requires Addressable(w.io, k)
    ensures ValidKey(k) && k in Logical(w) && Logical(w)[k] == LogicalAt(w, k)
  {}

  /** The bytes of an inode on its device. */
  ghost function OnDevice(w: Fs, io: Io, dev: Dev, ino: u32): seq<byte>
    requires ReadyIno(w, dev, ino) && Addressable(io, InodeKey(w, dev, ino))
  {
    var g := GeoOf(w, dev);
    At(DeviceBlock(io, InodeKey(w, dev, ino)), PlaceOf(Logical(w), g, dev, ino).offset, g.inodeSize)
  }

  /** On a server at rest, a client gets the block of an inode, and another one has a changed inode
      written out to it: in every mode, the change is not on the device. */
  lemma {:induction false} SharedWriteMissesAtRest(w: Fs, i: Inode, robust: Robust)
    requires Inv(w) && FreeClean(w) && ReadyIno(w, i.dev, i.ino) && i.dirty
    requires |w.slots| > 1 && forall p :: 0 <= p < |w.slots| ==> w.slots[p].count == 0
    requires GeoOf(w, i.dev).inodeSize <= INODE_BYTES && i.raw[..GeoOf(w, i.dev).inodeSize] != Visible(w, i.dev, i.ino)
    ensures var k := InodeKey(w, i.dev, i.ino);
      Get(w, k).Some? &&
        var held := Get(w, k).value.0;
        && Inv(held) && ReadyIno(held, i.dev, i.ino) && InodeKey(held, i.dev, i.ino) == k
        && Locatable(held, i.dev, i.ino) && InodeRw(held, i, false, robust).Some?
        && var io := InodeRw(held, i, false, robust).value.0.io;
           Addressable(io, k) && OnDevice(held, io, i.dev, i.ino) != i.raw[..GeoOf(w, i.dev).inodeSize]
  {
    var k := InodeKey(w, i.dev, i.ino);
    VisibleIs(w, i.dev, i.ino);
    InAddressable(w, k);
    hide Inv, FreeClean, Addressable, Get, InodeRw, ReadyIno, Locatable, Logical, InodeKey, PlaceOf, Visible;
    GetAtRest(w, k);
    var held := Get(w, k).value.0;
    SameDiskSameInode(w, held, i.dev, i.ino);
    VisibleIs(held, i.dev, i.ino);
    InodeRwPanics(held, i, false, robust);
    SharedWriteMisses(held, i, robust);
  }

  /** The root inode, once the server has booted from the floppy and a holder changed its first byte. */
  function ChangedRoot(r: Root): Inode
    requires r.rootDir < |r.t|
  {
    var root := r.t[r.rootDir];
    TableSteps.Changed(root, 0, [Inc8(root.raw[0])])
  }

  lemma {:induction false} ChangedRootDiffers(clock: Clock, robust: Robust, r: Root)
    requires Booted(clock, robust, r)
    ensures Inv(r.w) && FreeClean(r.w) && ReadyIno(r.w, ROOT_DEV, EXT2_ROOT_INO) && r.rootDir < |r.t|
    ensures |r.w.slots| > 1 && forall p :: 0 <= p < |r.w.slots| ==> r.w.slots[p].count == 0
    ensures var i := ChangedRoot(r);
      && i.dev == ROOT_DEV && i.ino == EXT2_ROOT_INO && i.dirty && GeoOf(r.w, ROOT_DEV).inodeSize <= INODE_BYTES
      && i.raw[..GeoOf(r.w, ROOT_DEV).inodeSize] != Visible(r.w, ROOT_DEV, EXT2_ROOT_INO)
  {
    hide Inv, FreeClean, OnlyRoot, TableInv, NetZero, RegisterRoot, Logical, DeviceOk, InodeBytes, MajMinToDev;
    var bytes := Visible(r.w, ROOT_DEV, EXT2_ROOT_INO);
    TableSteps.VisibleSize(r.w, ROOT_DEV, EXT2_ROOT_INO);
    ReadyDivisible(r.w, ROOT_DEV, EXT2_ROOT_INO);
    assert r.t[r.rootDir].raw[0] == bytes[0];
    assert ChangedRoot(r).raw[0] != bytes[0];
  }

  lemma {:induction false} ReadyDivisible(w: Fs, dev: Dev, ino: u32)
    requires ReadyIno(w, dev, ino)
    ensures SuperGet(w.supers, dev).Some? && GeoOf(w, dev).inodeSize > 0
  {}

  /** A concrete case: the server boots from the floppy, a client gets the root inode's block, a
      holder changes the root inode, and inode_rw writes it out. In every mode it is not on the
      floppy when inode_rw returns. */
  lemma {:induction false} SharedRootMissesFloppy(clock: Clock, robust: Robust) returns (r: Root, held: Fs)
    ensures Booted(clock, robust, r) && r.rootDir < |r.t| && ReadyIno(held, ROOT_DEV, EXT2_ROOT_INO)
    ensures var k := InodeKey(held, ROOT_DEV, EXT2_ROOT_INO); Get(r.w, k).Some? && held == Get(r.w, k).value.0
    ensures var i := ChangedRoot(r);
      && i.dev == ROOT_DEV && i.ino == EXT2_ROOT_INO && i.dirty && Locatable(held, ROOT_DEV, EXT2_ROOT_INO)
      && InodeRw(held, i, false, robust).Some?
      && var io := InodeRw(held, i, false, robust).value.0.io;
         && Addressable(io, InodeKey(held, ROOT_DEV, EXT2_ROOT_INO)) && GeoOf(held, ROOT_DEV).inodeSize <= INODE_BYTES
         && OnDevice(held, io, ROOT_DEV, EXT2_ROOT_INO) != i.raw[..GeoOf(held, ROOT_DEV).inodeSize]
  {
    hide *;
    r := FloppyBoots(clock, robust);
    ChangedRootDiffers(clock, robust, r);
    SharedWriteMissesAtRest(r.w, ChangedRoot(r), robust);
    var k := InodeKey(r.w, ROOT_DEV, EXT2_ROOT_INO);
    held := Get(r.w, k).value.0;
    VisibleIs(r.w, ROOT_DEV, EXT2_ROOT_INO);
    InAddressable(r.w, k);
    GetKeepsGeo(r.w, k);
    ReadyInoSize(held, ROOT_DEV, EXT2_ROOT_INO);
  }

  lemma {:induction false} GetKeepsGeo(w: Fs, k: Key)
    requires Inv(w) && ValidKey(k) && Get(w, k).Some? && SuperGet(w.supers, k.dev).Some?
    ensures var w1 := Get(w, k).value.0; SuperGet(w1.supers, k.dev).Some? && GeoOf(w1, k.dev) == GeoOf(w, k.dev)
  {
    GetSlots(w, k);
    SameGeo(w, Get(w, k).value.0, k.dev);
  }

  // ----- Blocks that the floppy does not have -----

  ghost predicate IsCached(w: Fs, dev: Dev, blk: nat) { Cached(w.slots, Key(dev, blk)).Some? }

  ghost function SlotOf(w: Fs, dev: Dev, blk: nat): nat {
    if IsCached(w, dev, blk) then Cached(w.slots, Key(dev, blk)).value else 0
  }

  /** Of more consecutive blocks than there are slots, one is not cached. */
  lemma {:induction false} SomeUncached(w: Fs, dev: Dev, first: nat)
    ensures exists blk: nat :: first <= blk <= first + |w.slots| && !IsCached(w, dev, blk)
  {
    if forall blk: nat :: first <= blk <= first + |w.slots| ==> IsCached(w, dev, blk) {
      var where := seq<nat>(|w.slots| + 1, i requires 0 <= i <= |w.slots| => SlotOf(w, dev, first + i));
      forall i: nat | i < |where| ensures Caches(w.slots, where[i], Key(dev, first + i)) {
        assert IsCached(w, dev, first + i);
        assert where[i] == SlotOf(w, dev, first + i);
      }
      SetOfDistinct(where);
      DistinctBelow(Elements(where), |w.slots|);
    }
  }

  lemma {:induction false} PastTheEnd(clock: Clock, blk: nat)
    requires 6 <= blk < MAX_BLK
    ensures ValidKey(Key(ROOT_DEV, blk)) && !Addressable(Plugged(clock).io, Key(ROOT_DEV, blk))
  {
    BlockOffAliases(blk, blk);
    PluggedBlock(clock, 0);
  }

  /** A get of block `k` shows the evicted bytes under its name, marked clean; and once a client has
      changed a byte of it and put it back as important, it is clean and no device has changed. */
  ghost predicate LosesChanges(w: Fs, k: Key, robust: Robust) {
    Get(w, k).Some? &&
    var (w1, p) := Get(w, k).value;
    && w1.slots[p].Key() == k && !w1.slots[p].dirty && w1.slots[p].data == w.slots[p].data
    && var run := Run(w, ChangeOps(w, k, 0, [Inc8(w.slots[p].data[0])]), robust);
      && run.Some? && |run.value.slots| == |w.slots| && run.value.io == w.io && run.value.err in {ENXIO, EIO}
      && var s := run.value.slots[p];
        s.Key() == k && !s.dirty && s.count == 0 && s.data != w.slots[p].data
  }

  lemma {:induction false} RefusedAtRest(w: Fs, k: Key, robust: Robust)
    requires Inv(w) && FreeClean(w) && !AllHeld(w) && SuperGet(w.supers, k.dev).Some? && !robust.Sloppy?
    requires ValidKey(k) && !Addressable(w.io, k) && Cached(w.slots, k).None?
    ensures LosesChanges(w, k, robust)
  {
    hide Inv, FreeClean, Addressable, Get, Run, ChangeOps, Splice;
    RefusedGet(w, k);
    EvictionWritesNothing(w, k);
    var p := Get(w, k).value.1;
    var bytes := [Inc8(w.slots[p].data[0])];
    RefusedBlockLost(w, k, 0, bytes, robust);
    assert Splice(w.slots[p].data, 0, bytes)[0..0 + 1][0] == bytes[0];
  }

  /** A concrete case: the server boots from the floppy, and some block past its end loses changes. */
  lemma {:induction false} LostPastTheEnd(clock: Clock, robust: Robust) returns (r: Root, k: Key)
    requires !robust.Sloppy?
    ensures Booted(clock, robust, r) && k.dev == ROOT_DEV && 6 <= k.blk && ValidKey(k)
    ensures !Addressable(r.w.io, k) && LosesChanges(r.w, k, robust)
  {
    hide *;
    r := FloppyBoots(clock, robust);
    BootedParts(clock, robust, r, Key(ROOT_DEV, 6));
    SomeUncached(r.w, ROOT_DEV, 6);
    var blk: nat :| 6 <= blk <= 6 + |r.w.slots| && !IsCached(r.w, ROOT_DEV, blk);
    k := Key(ROOT_DEV, blk);
    NotCachedIs(r.w, ROOT_DEV, blk);
    EarlyBlock(blk, |r.w.slots|);
    PastTheEnd(clock, blk);
    BootedParts(clock, robust, r, k);
    RefusedAtRest(r.w, k, robust);
  }

  lemma {:induction false} NotCachedIs(w: Fs, dev: Dev, blk: nat)
    ensures IsCached(w, dev, blk) <==> Cached(w.slots, Key(dev, blk)).Some?
  {}

  lemma {:induction false} EarlyBlock(blk: nat, slots: nat)
    requires slots == NUM_BLOCKS && blk <= 6 + slots
    ensures blk < MAX_BLK
  {}

  lemma {:induction false} RefusedGet(w: Fs, k: Key)
    requires Inv(w) && !AllHeld(w)
    ensures Get(w, k).Some?
  {
    GetPanics(w, k);
  }

  lemma {:induction false} BootedParts(clock: Clock, robust: Robust, r: Root, k: Key)
    requires Booted(clock, robust, r)
    ensures Inv(r.w) && FreeClean(r.w) && !AllHeld(r.w) && SuperGet(r.w.supers, ROOT_DEV).Some?
    ensures |r.w.slots| == NUM_BLOCKS
    ensures Addressable(r.w.io, k) <==> Addressable(Plugged(clock).io, k)
  {
    hide Inv, FreeClean, TableInv, NetZero, RegisterRoot, LogicalAt, Addressable, DeviceOk, InodeBytes, MajMinToDev;
    assert Logical(r.w) == Logical(Plugged(clock));
    assert Addressable(r.w.io, k) <==> k in Logical(r.w);
    assert Addressable(Plugged(clock).io, k) <==> k in Logical(Plugged(clock));
    assert r.w.slots[0].count == 0;
  }
}
