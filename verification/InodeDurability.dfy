/** When an inode that was written out is on its device. */
module InodeDurability {
  import opened Config
  import opened Device
  import opened Superblock
  import opened Cache
  import opened CacheProofs
  import opened Durability
  import opened Inodes
  import opened InodeProofs
  import opened InodeRuns

  // ----- What a borrow does to the devices -----

  /** Getting block `k` evicts block `k2`. */
  ghost predicate Evicts(w: Fs, k: Key, k2: Key) {
    Cached(w.slots, k).None? && Victim(w).Some? && w.slots[Victim(w).value].Key() == k2
  }

  /** What the device has of block `k2` once block `k` is got: what the cache had, if that is an
      eviction of `k2`, and otherwise what the device had. */
  ghost function BlockOnceGot(w: Fs, k: Key, k2: Key): BlockData
    requires Addressable(w.io, k2)
  {
    if Evicts(w, k, k2) then LogicalAt(w, k2) else DeviceBlock(w.io, k2)
  }

  lemma {:induction false} GetDevice(w: Fs, k: Key, k2: Key)
    requires Inv(w) && ValidKey(k) && Get(w, k).Some? && Addressable(w.io, k2)
    ensures var w1 := Get(w, k).value.0;
      Addressable(w1.io, k2) && DeviceBlock(w1.io, k2) == BlockOnceGot(w, k, k2)
  {
    GetSlots(w, k);
    GetKeeps(w, k);
    hide Addressable, DeviceBlock, BlockRw, Logical;
    if Cached(w.slots, k).None? {
      var p := Victim(w).value;
      WriteBackAt(w, p, k2);
      if w.slots[p].Key() == k2 {
        NamedDevice(w.io, k2);
        CachedIs(w.slots, k2, p);
        assert !w.slots[p].dirty ==> w.slots[p].data == DeviceBlock(w.io, k2);
      }
    }
  }

  /** An important put, as far as the devices are concerned. */
  lemma {:induction false} PutDevice(w: Fs, p: nat, robust: Robust, k2: Key)
    requires Inv(w) && p < |w.slots| && w.slots[p].dev != NO_DEV && Addressable(w.io, k2)
    requires w.slots[p].Key() != k2 || Dec8(w.slots[p].count) > 0 || robust.Sloppy?
    ensures var w' := Put(w, p, true, robust);
      Addressable(w'.io, k2) && DeviceBlock(w'.io, k2) == DeviceBlock(w.io, k2)
  {
    var w1 := Set(w, p, w.slots[p].(count := Dec8(w.slots[p].count)));
    CountKeeps(w, p, Dec8(w.slots[p].count));
    hide Addressable, DeviceBlock, BlockRw, Inv;
    WriteBackAt(w1, p, k2);
  }

  /** Borrowing one block, as far as another one on its device is concerned. */
  lemma {:induction false} BorrowDevice(w: Fs, k: Key, robust: Robust, k2: Key)
    requires Inv(w) && ValidKey(k) && Borrow(w, k, None, robust).Some? && Addressable(w.io, k2) && k2 != k
    ensures var w' := Borrow(w, k, None, robust).value;
      Addressable(w'.io, k2) && DeviceBlock(w'.io, k2) == BlockOnceGot(w, k, k2)
  {
    hide Inv, Get, Put, Addressable, DeviceBlock, BlockOnceGot;
    var (w1, p) := Get(w, k).value;
    GetKeeps(w, k);
    GetDevice(w, k, k2);
    PutDevice(w1, p, robust, k2);
  }

  /** A holder's write to a block that others hold too, or a write in SLOPPY mode, does not reach
      the device with the put. */
  lemma {:induction false} BorrowLeavesDevice(w: Fs, k: Key, write: Option<(nat, seq<byte>)>, robust: Robust)
    requires write.Some? ==> write.value.0 + |write.value.1| <= BLOCK_SIZE
    requires Inv(w) && Addressable(w.io, k) && SuperGet(w.supers, k.dev).Some? && Borrow(w, k, write, robust).Some?
    requires robust.Sloppy? || HeldBlock(w, k)
    ensures var w' := Borrow(w, k, write, robust).value;
      Addressable(w'.io, k) && DeviceBlock(w'.io, k) == DeviceBlock(w.io, k)
  {
    hide Inv, Get, Put, Addressable, DeviceBlock, Logical;
    assert ValidKey(k) by { NamedKey(w.io, k); }
    var (w1, p) := Get(w, k).value;
    GotSlots(w, k);
    GetKeeps(w, k);
    GetDevice(w, k, k);
    GetSlots(w, k);
    SameSlot(w.supers, w1.supers, k.dev);
    if HeldBlock(w, k) {
      HolderIs(w, k);
    }
    var w2 := if write.Some? then Write(w1, p, write.value.0, write.value.1) else w1;
    if write.Some? {
      WriteKeeps(w1, p, write.value.0, write.value.1);
    }
    PutDevice(w2, p, robust, k);
  }

  lemma {:induction false} HolderIs(w: Fs, k: Key)
    requires Inv(w) && ValidKey(k) && HeldBlock(w, k)
    ensures Cached(w.slots, k).Some?
    ensures forall p: nat :: Caches(w.slots, p, k) ==> w.slots[p].count > 0
  {
    var q: nat :| Caches(w.slots, q, k) && w.slots[q].count > 0;
    CachedIs(w.slots, k, q);
    forall p: nat | Caches(w.slots, p, k) ensures p == q {
      CachedIs(w.slots, k, p);
    }
  }

  lemma {:induction false} NamedKey(io: Io, k: Key)
    requires Addressable(io, k)
    ensures ValidKey(k)
  {}

  /** A borrower's write by the only holder is on the device after the put, outside SLOPPY mode. */
  lemma {:induction false} BorrowReachesDevice(w: Fs, k: Key, write: Option<(nat, seq<byte>)>, robust: Robust)
    requires write.Some? ==> write.value.0 + |write.value.1| <= BLOCK_SIZE
    requires Inv(w) && Addressable(w.io, k) && SuperGet(w.supers, k.dev).Some? && Borrow(w, k, write, robust).Some?
    requires !robust.Sloppy? && !HeldBlock(w, k)
    ensures var w' := Borrow(w, k, write, robust).value;
      Addressable(w'.io, k) && DeviceBlock(w'.io, k) == LogicalAt(w', k)
  {
    hide Inv, Borrow, Addressable, DeviceBlock, Logical, LogicalAt;
    NamedKey(w.io, k);
    BorrowFlushes(w, k, write, robust);
    BorrowKeeps(w, k, write, robust);
    CleanMeansOnDevice(Borrow(w, k, write, robust).value, k);
  }

  // ----- What inode_rw does to the device -----

  /** Whether inode_rw leaves the inode's block as written on the device. */
  ghost predicate WrittenThrough(w: Fs, k: Key, robust: Robust) { !robust.Sloppy? && !HeldBlock(w, k) }

  /** Once inode_rw has written an inode out, its block on the device is as everyone sees it, if
      nobody held the block and the mode is not SLOPPY. In all other cases it is as before, or as the
      get of the group block wrote it back when that evicted it. */
  lemma {:induction false} InodeWriteDevice(w: Fs, i: Inode, robust: Robust)
    requires Inv(w) && ReadyIno(w, i.dev, i.ino) && i.dirty
    ensures Locatable(w, i.dev, i.ino) && Addressable(w.io, InodeKey(w, i.dev, i.ino))
    ensures InodeRw(w, i, false, robust).Some? ==>
      var w', k := InodeRw(w, i, false, robust).value.0, InodeKey(w, i.dev, i.ino);
      && Addressable(w'.io, k)
      && DeviceBlock(w'.io, k) ==
           if WrittenThrough(w, k, robust) then LogicalAt(w', k)
           else BlockOnceGot(w, Key(i.dev, GROUP_BLOCK), k)
  {
    var k1, k2, write := Key(i.dev, GROUP_BLOCK), InodeKey(w, i.dev, i.ino), InodeWrite(w, i, false);
    InodeRwKeeps(w, i, false, robust);
    VisibleIs(w, i.dev, i.ino);
    InAddressable(w, k2);
    if InodeRw(w, i, false, robust).None? {
      return;
    }
    InodeRwBorrows(w, i, false, robust);
    GroupFindBorrows(w, i.dev, i.ino, robust);
    assert k2 != k1 && k2.dev == i.dev && (write.Some? ==> write.value.0 + |write.value.1| <= BLOCK_SIZE);
    hide *;
    var w1 := Borrow(w, k1, None, robust).value;
    BorrowKeeps(w, k1, None, robust);
    BorrowNetZero(w, k1, None, robust);
    BorrowDevice(w, k1, robust, k2);
    SameSlot(w.supers, w1.supers, i.dev);
    SameHolding(w, w1, k2);
    WrittenThroughIs(w, w1, k2, robust);
    if WrittenThrough(w, k2, robust) {
      BorrowReachesDevice(w1, k2, write, robust);
    } else {
      BorrowLeavesDevice(w1, k2, write, robust);
    }
  }

  lemma {:induction false} WrittenThroughIs(w: Fs, w1: Fs, k: Key, robust: Robust)
    requires HeldBlock(w, k) == HeldBlock(w1, k)
    ensures WrittenThrough(w, k, robust) == (!robust.Sloppy? && !HeldBlock(w1, k))
  {}

  /** Whether a block is in use stays, while others are borrowed. */
  lemma {:induction false} SameHolding(w: Fs, w1: Fs, k: Key)
    requires NetZero(w, w1)
    ensures HeldBlock(w, k) <==> HeldBlock(w1, k)
  {
    if p: nat :| Caches(w.slots, p, k) && w.slots[p].count > 0 {
      assert Caches(w1.slots, p, k) && w1.slots[p].count > 0;
    }
    if p: nat :| Caches(w1.slots, p, k) && w1.slots[p].count > 0 {
      assert Caches(w.slots, p, k) && w.slots[p].count > 0;
    }
  }

  /** An inode that inode_rw writes out is on the device when inode_rw returns if and only if nobody
      held its block and the mode is not SLOPPY, or its bytes were there already (or got there by an
      eviction). */
  lemma {:induction false} InodeWriteReachesDevice(w: Fs, i: Inode, robust: Robust)
    requires Inv(w) && ReadyIno(w, i.dev, i.ino) && i.dirty
    ensures Locatable(w, i.dev, i.ino) && Addressable(w.io, InodeKey(w, i.dev, i.ino))
    ensures InodeRw(w, i, false, robust).Some? ==>
      var w', k, g := InodeRw(w, i, false, robust).value.0, InodeKey(w, i.dev, i.ino), GeoOf(w, i.dev);
      var place := PlaceOf(Logical(w), g, i.dev, i.ino);
      && Addressable(w'.io, k) && g.inodeSize <= INODE_BYTES
      && (At(DeviceBlock(w'.io, k), place.offset, g.inodeSize) == i.raw[..g.inodeSize] <==>
            || WrittenThrough(w, k, robust)
            || At(BlockOnceGot(w, Key(i.dev, GROUP_BLOCK), k), place.offset, g.inodeSize) == i.raw[..g.inodeSize])
  {
    InodeWriteDevice(w, i, robust);
    InodeRwKeeps(w, i, false, robust);
    if InodeRw(w, i, false, robust).Some? {
      var w', k := InodeRw(w, i, false, robust).value.0, InodeKey(w, i.dev, i.ino);
      WriteShows(w, i, robust, i.dev, i.ino);
      VisibleIs(w', i.dev, i.ino);
      assert Logical(w')[k] == LogicalAt(w', k);
      hide *;
    }
  }

  /** In particular, an inode that is written out to a block in somebody else's use is not on the
      device, if it differs from what was there. */
  lemma {:induction false} SharedWriteMisses(w: Fs, i: Inode, robust: Robust)
    requires Inv(w) && ReadyIno(w, i.dev, i.ino) && i.dirty && HeldBlock(w, InodeKey(w, i.dev, i.ino))
    ensures Locatable(w, i.dev, i.ino) && Addressable(w.io, InodeKey(w, i.dev, i.ino))
    ensures InodeRw(w, i, false, robust).Some? ==>
      var w', k, g := InodeRw(w, i, false, robust).value.0, InodeKey(w, i.dev, i.ino), GeoOf(w, i.dev);
      var place := PlaceOf(Logical(w), g, i.dev, i.ino);
      && Addressable(w'.io, k) && DeviceBlock(w'.io, k) == DeviceBlock(w.io, k)
      && g.inodeSize <= INODE_BYTES
      && (At(DeviceBlock(w.io, k), place.offset, g.inodeSize) != i.raw[..g.inodeSize]
          ==> At(DeviceBlock(w'.io, k), place.offset, g.inodeSize) != i.raw[..g.inodeSize])
  {
    var k := InodeKey(w, i.dev, i.ino);
    InodeWriteDevice(w, i, robust);
    ReadySize(w, i.dev);
    NamedKey(w.io, k);
    HolderIs(w, k);
    hide InodeRw, Inv, PlaceOf, Logical, Addressable, ReadyIno;
  }

  /** A sole borrower's important put leaves no dirty copy, outside SLOPPY mode. */
  lemma {:induction false} BorrowFlushes(w: Fs, k: Key, write: Option<(nat, seq<byte>)>, robust: Robust)
    requires write.Some? ==> write.value.0 + |write.value.1| <= BLOCK_SIZE
    requires Inv(w) && ValidKey(k) && SuperGet(w.supers, k.dev).Some? && Borrow(w, k, write, robust).Some?
    requires !robust.Sloppy? && !HeldBlock(w, k)
    ensures var w' := Borrow(w, k, write, robust).value;
      forall p: nat :: Caches(w'.slots, p, k) ==> !w'.slots[p].dirty
  {
    var (w1, p) := Get(w, k).value;
    var w2 := if write.Some? then Write(w1, p, write.value.0, write.value.1) else w1;
    var w' := Put(w2, p, true, robust);
    GetSlots(w, k);
    GetKeeps(w, k);
    BorrowKeeps(w, k, write, robust);
    assert w1.slots[p].count == 1 && w2.slots[p].count == 1 && w2.slots[p].Key() == k;
    PutCleans(w2, p, robust);
    hide Get, Put, Inv, Logical, Addressable;
    CachedIs(w'.slots, k, p) by { assert Inv(w'); }
    forall q: nat | Caches(w'.slots, q, k) ensures !w'.slots[q].dirty {
      CachedIs(w'.slots, k, q) by { assert Inv(w'); }
    }
  }

  lemma {:induction false} PutCleans(w: Fs, p: nat, robust: Robust)
    requires p < |w.slots| && w.slots[p].count == 1 && !robust.Sloppy?
    ensures var w' := Put(w, p, true, robust);
      |w'.slots| == |w.slots| && !w'.slots[p].dirty && w'.slots[p].Key() == w.slots[p].Key()
  {}
}
