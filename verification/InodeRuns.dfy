/** Inodes over runs: what is written is what is read, whatever the cache evicts in between. */
module InodeRuns {
  import opened Config
  import opened Bytes
  import opened Device
  import opened Superblock
  import opened Cache
  import opened CacheProofs
  import opened Runs
  import opened Placement
  import opened Inodes
  import opened InodeProofs

  // ----- Panics -----

  ghost predicate AllHeld(w: Fs) { forall p :: 0 <= p < |w.slots| ==> w.slots[p].count > 0 }

  lemma {:induction false} BorrowPanics(w: Fs, k: Key, write: Option<(nat, seq<byte>)>, robust: Robust)
    requires write.Some? ==> write.value.0 + |write.value.1| <= BLOCK_SIZE
    requires Inv(w)
    ensures Borrow(w, k, write, robust).None? <==> AllHeld(w) && Cached(w.slots, k).None?
  {
    GetPanics(w, k);
    hide Get, Put;
  }

  lemma {:induction false} AllHeldSame(w: Fs, w1: Fs)
    requires NetZero(w, w1)
    ensures AllHeld(w) <==> AllHeld(w1)
  {}

  /** Borrowing with every slot in use evicts nothing. */
  lemma {:induction false} BorrowWhenAllHeld(w: Fs, k: Key, robust: Robust, k2: Key)
    requires Inv(w) && ValidKey(k) && ValidKey(k2) && AllHeld(w) && SuperGet(w.supers, k.dev).Some?
    requires Borrow(w, k, None, robust).Some?
    ensures var w1 := Borrow(w, k, None, robust).value;
      AllHeld(w1) && Cached(w1.slots, k2) == Cached(w.slots, k2)
  {
    var w1 := Borrow(w, k, None, robust).value;
    BorrowNetZero(w, k, None, robust);
    BorrowKeeps(w, k, None, robust);
    hide Borrow;
    assert SameNames(w.slots, w1.slots);
    CachedSame(w.slots, w1.slots, k2);
  }

  /** inode_rw runs out of blocks exactly when every slot is in use and the group block or the
      inode's block is not cached; one slot in nobody's use is enough. */
  lemma {:induction false} InodeRwPanics(w: Fs, i: Inode, read: bool, robust: Robust)
    requires Inv(w) && ReadyIno(w, i.dev, i.ino)
    ensures Locatable(w, i.dev, i.ino)
    ensures InodeRw(w, i, read, robust).None? <==>
      && i.dirty && AllHeld(w)
      && (Cached(w.slots, Key(i.dev, GROUP_BLOCK)).None? || Cached(w.slots, InodeKey(w, i.dev, i.ino)).None?)
  {
    ReadySize(w, i.dev);
    ReadyLocatable(w, i.dev, i.ino);
    if i.dirty {
      var k1, k2, write := Key(i.dev, GROUP_BLOCK), InodeKey(w, i.dev, i.ino), InodeWrite(w, i, read);
      assert SuperGet(w.supers, i.dev).Some? && ValidKey(k1) by { GroupFindBorrows(w, i.dev, i.ino, robust); }
      InodeRwBorrows(w, i, read, robust);
      assert write.Some? ==> write.value.0 + |write.value.1| <= BLOCK_SIZE;
      hide *;
      BorrowPanics(w, k1, None, robust);
      if Borrow(w, k1, None, robust).Some? {
        var w1 := Borrow(w, k1, None, robust).value;
        BorrowKeeps(w, k1, None, robust);
        BorrowNetZero(w, k1, None, robust);
        AllHeldSame(w, w1);
        BorrowPanics(w1, k2, write, robust);
        if AllHeld(w) {
          BorrowWhenAllHeld(w, k1, robust, k2);
        }
      }
    }
  }

  // ----- Runs that spare an inode -----

  /** A request does not write over the inode at `place` of `dev`, nor relocate inode tables. */
  ghost predicate Spares(v: Fs, op: Op, dev: Dev, place: Place, size: nat) {
    op.WriteOp? && Enabled(v, op) ==>
      var s := v.slots[op.p];
      && (s.Key() == Key(dev, place.blk) ==> op.at + |op.bytes| <= place.offset || place.offset + size <= op.at)
      && (s.Key() == Key(dev, GROUP_BLOCK) ==> SameTables(s.data, Splice(s.data, op.at, op.bytes)))
  }

  /** One change to a plain disk that spares an inode. */
  lemma {:induction false} ChangeSpares(d: Disk, k: Key, at: nat, bytes: seq<byte>, g: Geometry, dev: Dev, ino: u32)
    requires DeviceOk(d, g, dev) && ValidIno(g, ino) && k in d && at + |bytes| <= BLOCK_SIZE
    requires var place := PlaceOf(d, g, dev, ino);
      && (k == Key(dev, place.blk) ==> at + |bytes| <= place.offset || place.offset + g.inodeSize <= at)
      && (k == Key(dev, GROUP_BLOCK) ==> SameTables(d[k], Splice(d[k], at, bytes)))
    ensures var d' := d[k := Splice(d[k], at, bytes)];
      DeviceOk(d', g, dev) && PlaceOf(d', g, dev, ino) == PlaceOf(d, g, dev, ino)
      && InodeBytes(d', g, dev, ino) == InodeBytes(d, g, dev, ino)
  {
    var d', place := d[k := Splice(d[k], at, bytes)], PlaceOf(d, g, dev, ino);
    TablesPlace(d, d', g, dev, ino);
    hide DeviceOk, PlaceOf, TableOf;
    if k == Key(dev, place.blk) {
      SpliceMisses(d[k], at, bytes, place.offset, place.offset + g.inodeSize);
    }
  }

  /** What is visible of an inode, and where it is, is the same in two states. */
  ghost predicate SameInode(w: Fs, w': Fs, dev: Dev, ino: u32) {
    && ReadyIno(w, dev, ino) && ReadyIno(w', dev, ino) && GeoOf(w', dev) == GeoOf(w, dev)
    && InodeKey(w', dev, ino) == InodeKey(w, dev, ino)
    && PlaceOf(Logical(w'), GeoOf(w', dev), dev, ino) == PlaceOf(Logical(w), GeoOf(w, dev), dev, ino)
    && Visible(w', dev, ino) == Visible(w, dev, ino)
  }

  lemma {:induction false} SameGeo(w: Fs, w': Fs, dev: Dev)
    requires SameButStamps(w.supers, w'.supers) && SuperGet(w.supers, dev).Some?
    ensures SuperGet(w'.supers, dev).Some? && GeoOf(w', dev) == GeoOf(w, dev)
  {
    var n := SuperGet(w.supers, dev).value;
    SameSlot(w.supers, w'.supers, dev);
    LayoutKept(w.supers[n], w'.supers[n]);
  }

  /** One request that spares an inode. */
  lemma {:induction false} StepSpares(v: Fs, op: Op, robust: Robust, dev: Dev, ino: u32)
    requires Inv(v) && Enabled(v, op) && Step(v, op, robust).Some? && ReadyIno(v, dev, ino)
    requires Spares(v, op, dev, PlaceOf(Logical(v), GeoOf(v, dev), dev, ino), GeoOf(v, dev).inodeSize)
    ensures SameInode(v, Step(v, op, robust).value, dev, ino)
  {
    var v', d, g := Step(v, op, robust).value, Logical(v), GeoOf(v, dev);
    StepRefines(v, op, robust);
    StepKeeps(v, op, robust);
    SameGeo(v, v', dev);
    if op.WriteOp? {
      var k := v.slots[op.p].Key();
      InUse(v, op.p);
      ShownBySlot(v, op.p, k);
      assert Logical(v') == Apply(d, Changed(k, op.at, op.bytes));
      hide Inv, Step, DeviceOk, PlaceOf, InodeBytes, Logical;
      if k in d {
        InAddressable(v, k);
        ChangeSpares(d, k, op.at, op.bytes, g, dev, ino);
      }
    } else {
      assert Logical(v') == d;
    }
  }

  // ----- Read over write -----

  /** After inode_rw writes an inode out, everyone sees the record's bytes; inodes other than it
      look as before, on every device. */
  lemma {:induction false} WriteShows(w: Fs, i: Inode, robust: Robust, dev: Dev, ino: u32)
    requires Inv(w) && ReadyIno(w, i.dev, i.ino) && i.dirty && ReadyIno(w, dev, ino)
    ensures Locatable(w, i.dev, i.ino)
    ensures InodeRw(w, i, false, robust).Some? ==>
      var w' := InodeRw(w, i, false, robust).value.0;
      && ReadyIno(w', dev, ino) && GeoOf(w', dev) == GeoOf(w, dev)
      && Visible(w', dev, ino) ==
           (if dev == i.dev && ino == i.ino then i.raw[..GeoOf(w, dev).inodeSize] else Visible(w, dev, ino))
      && PlaceOf(Logical(w'), GeoOf(w', dev), dev, ino) == PlaceOf(Logical(w), GeoOf(w, dev), dev, ino)
  {
    InodeRwKeeps(w, i, false, robust);
    if InodeRw(w, i, false, robust).None? {
      return;
    }
    var w', g := InodeRw(w, i, false, robust).value.0, GeoOf(w, i.dev);
    SameGeo(w, w', dev);
    SameGeo(w, w', i.dev);
    assert Logical(w') == WithInode(Logical(w), g, i.dev, i.ino, i.raw[..g.inodeSize]);
    hide Inv, InodeRw, Logical, DeviceOk, WithInode, InodeBytes;
    WriteInodeReads(Logical(w), g, i.dev, i.ino, i.raw[..g.inodeSize]);
    if dev != i.dev || ino != i.ino {
      WriteInodeElsewhere(Logical(w), g, i.dev, i.ino, i.raw[..g.inodeSize], GeoOf(w, dev), dev, ino);
    }
  }

  /** inode_rw, except when it writes that inode, leaves an inode where it is and as it looks. */
  lemma {:induction false} InodeRwSpares(w: Fs, i: Inode, read: bool, robust: Robust, dev: Dev, ino: u32)
    requires Inv(w) && ReadyIno(w, i.dev, i.ino) && ReadyIno(w, dev, ino)
    requires i.dirty && !read ==> (i.dev, i.ino) != (dev, ino)
    ensures Locatable(w, i.dev, i.ino)
    ensures InodeRw(w, i, read, robust).Some? ==> SameInode(w, InodeRw(w, i, read, robust).value.0, dev, ino)
  {
    InodeRwKeeps(w, i, read, robust);
    if InodeRw(w, i, read, robust).Some? {
      if i.dirty && !read {
        hide Inv, InodeRw, Visible, Locatable, PlaceOf;
        WriteShows(w, i, robust, dev, ino);
      } else {
        hide Inv, InodeRw, Logical, PlaceOf;
        SameDiskSameInode(w, InodeRw(w, i, read, robust).value.0, dev, ino);
      }
    }
  }

  /** States with the same logical disk, and with superblocks that differ in stamps only. */
  lemma {:induction false} SameDiskSameInode(w: Fs, w': Fs, dev: Dev, ino: u32)
    requires SameButStamps(w.supers, w'.supers) && Logical(w') == Logical(w) && ReadyIno(w, dev, ino)
    ensures SameInode(w, w', dev, ino)
  {
    SameDiskSameInodes(w, w', dev);
    SameGeo(w, w', dev);
  }

  /** Reading a dirty record in replaces its on-device part by what is visible of the inode. */
  lemma {:induction false} ReadGives(w: Fs, i: Inode, robust: Robust)
    requires Inv(w) && ReadyIno(w, i.dev, i.ino) && i.dirty
    ensures Locatable(w, i.dev, i.ino) && GeoOf(w, i.dev).inodeSize <= INODE_BYTES
    ensures InodeRw(w, i, true, robust).Some? ==>
      InodeRw(w, i, true, robust).value.1 == Loaded(i, Visible(w, i.dev, i.ino))
  {
    InodeRwKeeps(w, i, true, robust);
  }

  /** Reading any other inode, on any device, gives what it would have given before the write. */
  lemma {:induction false} InodeWriteSparesOthers(w: Fs, a: Inode, c: Inode, robust: Robust)
    requires Inv(w) && ReadyIno(w, a.dev, a.ino) && a.dirty && ReadyIno(w, c.dev, c.ino) && c.dirty
    requires (c.dev, c.ino) != (a.dev, a.ino)
    ensures Locatable(w, a.dev, a.ino) && Locatable(w, c.dev, c.ino)
    ensures var wrote, before := InodeRw(w, a, false, robust), InodeRw(w, c, true, robust);
      wrote.Some? && before.Some? ==>
        && Locatable(wrote.value.0, c.dev, c.ino)
        && var after := InodeRw(wrote.value.0, c, true, robust);
           (after.Some? ==> after.value.1 == before.value.1)
  {
    InodeRwKeeps(w, a, false, robust);
    WriteShows(w, a, robust, c.dev, c.ino);
    ReadGives(w, c, robust);
    if InodeRw(w, a, false, robust).Some? {
      hide Inv, InodeRw, Visible, Locatable, ReadyIno;
      ReadGives(InodeRw(w, a, false, robust).value.0, c, robust);
    }
  }

  // ----- Inode operations are runs -----

  /** The requests that a borrower makes. */
  ghost function BorrowOps(w: Fs, k: Key, write: Option<(nat, seq<byte>)>): seq<Op> {
    if Get(w, k).None? then []
    else
      var p := Get(w, k).value.1;
      [GetOp(k)] + (if write.Some? then [WriteOp(p, write.value.0, write.value.1)] else []) + [PutOp(p, true)]
  }

  /** Another reference to a block does not overflow its counter. */
  ghost predicate HasRoom(w: Fs, k: Key) {
    forall p: nat :: Caches(w.slots, p, k) ==> w.slots[p].count < 0xFF
  }

  /** Unless the counter overflows, borrowing a block of a mounted device is a run of ordinary requests. */
  lemma {:induction false} BorrowIsRun(w: Fs, k: Key, write: Option<(nat, seq<byte>)>, robust: Robust)
    requires write.Some? ==> write.value.0 + |write.value.1| <= BLOCK_SIZE
    requires Inv(w) && ValidKey(k) && SuperGet(w.supers, k.dev).Some? && Get(w, k).Some? && HasRoom(w, k)
    ensures Run(w, BorrowOps(w, k, write), robust) == Borrow(w, k, write, robust)
  {
    var (w1, p) := Get(w, k).value;
    GetSlots(w, k);
    assert w1.slots[p].count > 0 && w1.slots[p].Key() == k;
    SameSlot(w.supers, w1.supers, k.dev);
    hide Get, Put, Write, Inv;
    assert Run(w, [], robust) == Some(w);
    RunOne(w, [], GetOp(k), robust);
    assert [] + [GetOp(k)] == [GetOp(k)];
    if write.Some? {
      var op := WriteOp(p, write.value.0, write.value.1);
      RunOne(w, [GetOp(k)], op, robust);
      WriteStaysHeld(w1, p, write.value.0, write.value.1);
      RunOne(w, [GetOp(k)] + [op], PutOp(p, true), robust);
    } else {
      RunOne(w, [GetOp(k)], PutOp(p, true), robust);
      assert [GetOp(k)] + [] + [PutOp(p, true)] == [GetOp(k)] + [PutOp(p, true)];
    }
  }

  lemma {:induction false} WriteStaysHeld(w: Fs, p: nat, at: nat, bytes: seq<byte>)
    requires p < |w.slots| && at + |bytes| <= BLOCK_SIZE
    ensures |Write(w, p, at, bytes).slots| == |w.slots| && Write(w, p, at, bytes).slots[p].count == w.slots[p].count
  {}

  /** The requests that inode_rw makes. */
  ghost function InodeRwOps(w: Fs, i: Inode, read: bool, robust: Robust): seq<Op>
    requires ReadyIno(w, i.dev, i.ino) && GeoOf(w, i.dev).inodeSize <= INODE_BYTES
  {
    var k1, k2 := Key(i.dev, GROUP_BLOCK), InodeKey(w, i.dev, i.ino);
    if !i.dirty || Borrow(w, k1, None, robust).None? then []
    else BorrowOps(w, k1, None) + BorrowOps(Borrow(w, k1, None, robust).value, k2, InodeWrite(w, i, read))
  }

  /** A slot that is not taken from anybody has as much room as before. */
  lemma {:induction false} StillRoom(w: Fs, w1: Fs, k: Key)
    requires NetZero(w, w1) && HasRoom(w, k)
    ensures HasRoom(w1, k)
  {
    forall p: nat | Caches(w1.slots, p, k) ensures w1.slots[p].count < 0xFF {
      assert w.slots[p].count != 0 ==> Caches(w.slots, p, k);
    }
  }

  lemma {:induction false} BorrowGets(w: Fs, k: Key, write: Option<(nat, seq<byte>)>, robust: Robust)
    requires write.Some? ==> write.value.0 + |write.value.1| <= BLOCK_SIZE
    ensures Borrow(w, k, write, robust).Some? <==> Get(w, k).Some?
  {
    hide Get, Put;
  }

  /** Unless a counter overflows, inode_rw is a run of ordinary requests. */
  lemma {:induction false} InodeRwIsRun(w: Fs, i: Inode, read: bool, robust: Robust)
    requires Inv(w) && ReadyIno(w, i.dev, i.ino)
    requires HasRoom(w, Key(i.dev, GROUP_BLOCK)) && HasRoom(w, InodeKey(w, i.dev, i.ino))
    ensures Locatable(w, i.dev, i.ino) && GeoOf(w, i.dev).inodeSize <= INODE_BYTES
    ensures InodeRw(w, i, read, robust).Some? ==>
      Run(w, InodeRwOps(w, i, read, robust), robust) == Some(InodeRw(w, i, read, robust).value.0)
  {
    ReadySize(w, i.dev);
    ReadyLocatable(w, i.dev, i.ino);
    if i.dirty && InodeRw(w, i, read, robust).Some? {
      var k1, k2, write := Key(i.dev, GROUP_BLOCK), InodeKey(w, i.dev, i.ino), InodeWrite(w, i, read);
      InodeRwBorrows(w, i, read, robust);
      GroupFindBorrows(w, i.dev, i.ino, robust);
      var w1 := Borrow(w, k1, None, robust).value;
      var ops1, ops2 := BorrowOps(w, k1, None), BorrowOps(w1, k2, write);
      assert InodeRwOps(w, i, read, robust) == ops1 + ops2 && k2.dev == i.dev;
      hide *;
      BorrowGets(w, k1, None, robust);
      BorrowIsRun(w, k1, None, robust);
      BorrowKeeps(w, k1, None, robust);
      BorrowNetZero(w, k1, None, robust);
      SameSlot(w.supers, w1.supers, i.dev);
      StillRoom(w, w1, k2);
      BorrowGets(w1, k2, write, robust);
      BorrowIsRun(w1, k2, write, robust);
      RunsConcatenate(w, ops1, ops2, robust);
    }
  }
}
