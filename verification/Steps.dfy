/** The operations on values, unfolded step by step and fact by fact, as the imperative ones follow them. */
module Steps {
  import opened Config
  import opened Bytes
  import opened Device
  import opened Superblock
  import opened Ring
  import opened Cache
  import opened CacheProofs
  import opened Placement
  import opened Inodes
  import opened InodeProofs
  import opened InodeRuns
  import opened Durability
  import opened Mounting

  /** mount_root, step by step. */
  lemma {:induction false} MountRootUnfolds(w: Fs, t: seq<Inode>, robust: Robust)
    requires Opens(w.io, ROOT_DEV) && SuperRead(w, ROOT_DEV, robust).Some?
    requires var (w1, slot) := SuperRead(w, ROOT_DEV, robust).value;
      slot.Some? && w1.err == w.err && Locatable(FillRoot(w1, slot.value), ROOT_DEV, EXT2_ROOT_INO)
    ensures var (w1, slot) := SuperRead(w, ROOT_DEV, robust).value;
      var r := Mounting.MountRoot(w, t, robust);
      if w.err != 0 then r.None?
      else
        match InodeGet(FillRoot(w1, slot.value), t, ROOT_DEV, EXT2_ROOT_INO, robust)
        case None => r.None?
        case Some((w', t', n)) =>
          r == Some((SetSuper(w', slot.value, w'.supers[slot.value].(rootDir := Some(n), dirty := true)), t', n))
  {
    hide Opens, SuperRead, FillRoot, InodeGet, Locatable, MajMinToDev;
  }

  /** fs_register for the root device, step by step. */
  lemma {:induction false} RegisterUnfolds(w: Fs, t: seq<Inode>, pid: int, robust: Robust)
    requires |w.io.blockPid| == |w.io.charPid| == NUM_DRIVERS
    requires var w0 := Registered(w, pid);
      Inv(w0) && FreeClean(w0) && !AllHeld(w0) && NothingMounted(w0, t) && RootDiskOk(Logical(w0))
    ensures var r := RegisterRoot(w, t, pid, robust);
      match Mounting.MountRoot(Registered(w, pid), t, robust)
      case None => r.None?
      case Some((w1, t1, _)) =>
        && Locatable(w1, ROOT_DEV, EXT2_ROOT_INO)
        && match InodeGet(w1, t1, ROOT_DEV, EXT2_ROOT_INO, robust)
           case None => r.None?
           case Some((w2, t2, n)) =>
             Locatable(w2, ROOT_DEV, EXT2_ROOT_INO) ==>
               match InodeGet(w2, t2, ROOT_DEV, EXT2_ROOT_INO, robust)
               case None => r.None?
               case Some((w3, t3, m)) => r == Some(Root(w3, t3, n, m))
  {
    hide Mounting.MountRoot, InodeGet, Locatable, MajMinToDev;
    hide Inv, FreeClean, AllHeld, NothingMounted, RootDiskOk, Logical;
    RootDevFacts();
    if Mounting.MountRoot(Registered(w, pid), t, robust).Some? {
      RootFound(Registered(w, pid), t, robust);
    }
  }

  lemma {:induction false} FindIs(t: seq<Inode>, dev: Dev, ino: u32, n: nat)
    requires FoundAt(t, dev, ino, n)
    ensures Find(t, dev, ino) == Some(n)
  {}

  lemma {:induction false} FindNone(t: seq<Inode>, dev: Dev, ino: u32)
    requires forall m :: 0 <= m < |t| ==> !(t[m].dev == dev && t[m].ino == ino)
    ensures Find(t, dev, ino) == None
  {
    assert forall n: nat :: !FoundAt(t, dev, ino, n);
  }

  lemma {:induction false} FindFreeIs(t: seq<Inode>, n: nat)
    requires FreeAt(t, n)
    ensures FindFree(t) == Some(n)
  {}

  lemma {:induction false} FindFreeNone(t: seq<Inode>)
    requires forall m :: 0 <= m < |t| ==> t[m].count != 0
    ensures FindFree(t) == None
  {
    assert forall n: nat :: !FreeAt(t, n);
  }

  lemma {:induction false} FreshFields(i: Inode, dev: Dev, ino: u32)
    ensures Fresh(i, dev, ino) == i.(dev := dev, ino := ino, count := 1, mounted := false, dirty := true)
  {}

  /** inode_get, step by step. */
  lemma {:induction false} InodeGetUnfolds(w: Fs, t: seq<Inode>, dev: Dev, ino: u32, robust: Robust)
    requires Locatable(w, dev, ino)
    ensures var r, at, free := InodeGet(w, t, dev, ino, robust), Find(t, dev, ino), FindFree(t);
      if at.Some? then
        at.value < |t| &&
        var i := t[at.value];
        r == Some((w, t[at.value := i.(count := Inc8(i.count))], at.value))
      else if free.None? then r.None?
      else
        free.value < |t| &&
        var blank := Fresh(t[free.value], dev, ino);
        && blank.dev == dev && blank.ino == ino && blank.dirty
        && match InodeRw(w, blank, true, robust)
           case None => r.None?
           case Some((w', i)) => r == Some((w', t[free.value := i], free.value))
  {
    hide InodeRw, Locatable;
  }

  lemma {:induction false} ReleasedIs(w: Fs, i: Inode)
    ensures LastPut(w, i) == Released(i.(count := 0), w.clock.Now())
    ensures LastPutClock(w, i.(count := 0)) == LastPutClock(w, i)
    ensures LastPutClock(w, i) == w || LastPutClock(w, i) == w.(clock := w.clock.After())
  {
    hide Splice;
  }

  lemma {:induction false} LocatableParts(w: Fs, dev: Dev, ino: u32)
    requires Locatable(w, dev, ino)
    ensures SuperGet(w.supers, dev).Some? && SuperGet(w.supers, dev).value < |w.supers|
    ensures GeoOf(w, dev) == w.supers[SuperGet(w.supers, dev).value].Geo()
    ensures Divisible(GeoOf(w, dev)) && Group(GeoOf(w, dev), ino) < MAX_GROUPS
  {}

  lemma {:induction false} LoadedIsClean(i: Inode, bytes: seq<byte>)
    requires |bytes| <= INODE_BYTES
    ensures !Loaded(i, bytes).dirty
  {}

  /** What block_get hands out, for its caller. */
  lemma {:induction false} GetShows(w: Fs, k: Key)
    requires Inv(w) && ValidKey(k) && Get(w, k).Some? && SuperGet(w.supers, k.dev).Some?
    ensures var (w', p) := Get(w, k).value;
      w'.slots[p].Key() == k && w'.slots[p].dev == k.dev && SuperGet(w'.supers, k.dev).Some?
  {
    GetSlots(w, k);
    SameSlot(w.supers, Get(w, k).value.0.supers, k.dev);
  }

  lemma {:induction false} ValidMajor(dev: Dev, blk: int)
    requires ValidKey(Key(dev, blk))
    ensures dev != NO_DEV && Major(dev) as int < NUM_DRIVERS
  {}

  lemma {:induction false} GroupFindIs(w: Fs, dev: Dev, ino: u32, robust: Robust)
    requires Locatable(w, dev, ino)
    ensures GroupFind(w, dev, ino, robust) ==
      match Get(w, Key(dev, GROUP_BLOCK))
      case None => None
      case Some((w1, p)) => Some((Put(w1, p, true, robust), Locate(GeoOf(w, dev), w1.slots[p].data, ino)))
  {
    hide Get, Put;
  }

  lemma {:induction false} LocateIs(g: Geometry, groups: BlockData, ino: u32)
    requires Divisible(g) && Group(g, ino) < MAX_GROUPS
    ensures Locate(g, groups, ino) ==
      Place(ToLong(TableOf(groups, Group(g, ino)) + Quot(Index(g, ino), InodesPerBlock(g))),
            Rem(Index(g, ino), InodesPerBlock(g)) * g.inodeSize)
  {
    hide Group, Index, TableOf, Quot, ToLong;
  }

  lemma {:induction false} InodeKeyValid(w: Fs, dev: Dev, ino: u32)
    requires ReadyIno(w, dev, ino)
    ensures ValidKey(InodeKey(w, dev, ino)) && ValidKey(Key(dev, GROUP_BLOCK)) && SuperGet(w.supers, dev).Some?
  {
    InAddressable(w, InodeKey(w, dev, ino));
    InAddressable(w, Key(dev, GROUP_BLOCK));
  }

  /** After group_find, the state is sound and the place is the inode's. */
  lemma {:induction false} GroupFindSteps(w: Fs, dev: Dev, ino: u32, robust: Robust)
    requires Inv(w) && ReadyIno(w, dev, ino)
    ensures Locatable(w, dev, ino)
    ensures var r := GroupFind(w, dev, ino, robust);
      r.Some? ==>
        && Inv(r.value.0) && Key(dev, r.value.1.blk) == InodeKey(w, dev, ino)
        && SuperGet(r.value.0.supers, dev).Some? && r.value.1.offset + GeoOf(w, dev).inodeSize <= BLOCK_SIZE
  {
    GroupFindBorrows(w, dev, ino, robust);
    if GroupFind(w, dev, ino, robust).Some? {
      BorrowKeeps(w, Key(dev, GROUP_BLOCK), None, robust);
      SameSlot(w.supers, GroupFind(w, dev, ino, robust).value.0.supers, dev);
    }
  }

  /** inode_rw on a dirty record, step by step. */
  lemma {:induction false} InodeRwUnfolds(w: Fs, i: Inode, read: bool, robust: Robust)
    requires i.dirty && Locatable(w, i.dev, i.ino)
    ensures var size, r := GeoOf(w, i.dev).inodeSize, InodeRw(w, i, read, robust);
      match GroupFind(w, i.dev, i.ino, robust)
      case None => r.None?
      case Some((w1, place)) =>
        match Get(w1, Key(i.dev, place.blk))
        case None => r.None?
        case Some((w2, p)) =>
          r == Some((Put(if read then w2 else Write(w2, p, place.offset, i.raw[..size]), p, true, robust),
                     if read then Loaded(i, At(w2.slots[p].data, place.offset, size)) else i.(dirty := false)))
  {
    hide GroupFind, Get, Put, Write, Loaded, At, Locatable;
  }

  lemma {:induction false} RecacheOrder(w: Fs, p: nat, k: Key)
    requires p < |w.slots|
    ensures Recache(w, p, k).order == w.order
  {}

  lemma {:induction false} DevSyncIs(w: Fs, dev: Dev)
    ensures DevSync(w, dev) == FlushFrom(w, (s: Slot) => s.dev == dev, 0)
  {}

  lemma {:induction false} DevPurgeIs(w: Fs, dev: Dev)
    ensures DevPurge(w, dev) == PurgeFrom(w, dev, 0)
  {}

  lemma {:induction false} PurgeUnfolds(w: Fs, dev: Dev, p: nat)
    requires p <= |w.slots|
    ensures p < |w.slots| ==> |PurgedSlot(w, p).slots| == |w.slots|
    ensures PurgeFrom(w, dev, p) ==
      if p == |w.slots| then w else PurgeFrom(if w.slots[p].dev == dev then PurgedSlot(w, p) else w, dev, p + 1)
  {}

  /** A dirty block's device has a driver slot and a superblock. */
  lemma {:induction false} DirtyInTable(w: Fs, p: nat)
    requires Inv(w) && p < |w.slots|
    ensures w.slots[p].dirty ==> Major(w.slots[p].dev) as int < NUM_DRIVERS && SuperGet(w.supers, w.slots[p].dev).Some?
  {}

  /** A key that no slot on the ring has is not cached. */
  lemma {:induction false} NoneCached(slots: seq<Slot>, order: seq<nat>, k: Key)
    requires Permutation(order, |slots|)
    requires forall j :: 0 <= j < |slots| ==> slots[order[j]].Key() != k
    ensures Cached(slots, k).None?
  {
    if Cached(slots, k).Some? {
      Covers(order, |slots|, Cached(slots, k).value);
    }
  }

  lemma {:induction false} VictimIs(w: Fs, i: nat)
    requires FirstFree(w.slots, w.order, i)
    ensures Victim(w) == Some(w.order[i])
  {}

  lemma {:induction false} NoVictim(w: Fs)
    requires Permutation(w.order, |w.slots|)
    requires forall j :: 0 <= j < |w.slots| ==> w.slots[w.order[j]].count != 0
    ensures Victim(w).None?
  {
    assert forall i: nat :: !FirstFree(w.slots, w.order, i);
  }
}
