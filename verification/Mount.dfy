/** Reading superblocks, and mounting the root file system when its driver registers. */
module Mounting {
  import opened Config
  import opened Bytes
  import opened Device
  import opened Superblock
  import opened Cache
  import opened CacheProofs
  import opened Placement
  import opened Inodes
  import opened InodeProofs
  import opened Runs
  import opened InodeRuns
  import opened InodeTable
  import opened TableSteps
  import opened Durability
  import opened InodeDurability

  /** The part of a block that a superblock takes. */
  function SuperPart(data: BlockData): SuperRaw { data[..SUPER_BYTES] }

  function SetSuper(w: Fs, i: nat, s: Super): Fs
    requires i < |w.supers|
  {
    w.(supers := w.supers[i := s])
  }

  /** Copies a device's superblock into the first free slot of the table. None is a panic; a
      result without a slot means that the table is full. */
  ghost function SuperRead(w: Fs, dev: Dev, robust: Robust): (r: Option<(Fs, Option<nat>)>)
    ensures r.Some? && r.value.1.Some? ==> r.value.1.value < |r.value.0.supers| == |w.supers|
  {
    match SuperGet(w.supers, NO_DEV)
    case None => Some((w, None))
    case Some(i) =>
      match Get(w, Key(dev, SUPER_BLOCK))
      case None => None
      case Some((w1, p)) =>
        var w2 := SetSuper(w1, i, w1.supers[i].(raw := SuperPart(w1.slots[p].data)));
        Some((Put(w2, p, true, robust), Some(i)))
  }

  function Pow2(n: nat): nat { if n == 0 then 1 else 2 * Pow2(n - 1) }

  /** `1024 << log`, as the i386 computes it: it takes shift counts modulo 32. */
  function ShiftedSize(log: u32): int { ToLong(1024 * Pow2(log % 32)) }

  /** Doubling, from 1024 on, while the result fits a signed long; modulo 32 on the whole. */
  lemma {:induction false} ShiftDoubles(log: u32)
    ensures ShiftedSize(0) == 1024 && (log < 20 ==> ShiftedSize(log + 1) == 2 * ShiftedSize(log))
    ensures log < 0x1_0000_0000 - 32 ==> ShiftedSize(log + 32) == ShiftedSize(log)
  {
    hide Pow2, ToLong;
    Pow2Step(log);
    SmallLong(1024);
    if log < 20 {
      Pow2Mono(log + 1, 20);
      Pow2Of20();
      SmallLong(1024 * Pow2(log));
      SmallLong(1024 * Pow2(log + 1));
    }
  }

  lemma {:induction false} Pow2Step(n: nat)
    ensures Pow2(0) == 1 && Pow2(n + 1) == 2 * Pow2(n)
  {}

  lemma {:induction false} Pow2Of20()
    ensures Pow2(20) == 0x10_0000
  {
    assert Pow2(4) == 0x10;
    assert Pow2(8) == 0x100;
    assert Pow2(12) == 0x1000;
    assert Pow2(16) == 0x1_0000;
  }

  lemma {:induction false} Pow2Mono(n: nat, m: nat)
    requires n <= m
    ensures Pow2(n) <= Pow2(m)
  {
    if n < m {
      Pow2Mono(n, m - 1);
    }
  }

  /** The superblock of the root file system as mounting fills it in, except for its root inode. */
  function RootSuper(s: Super, now: u32): Super {
    var raw1 := PutU32(s.raw, S_MTIME, now);
    var raw2 := PutU16(raw1, S_MNT_COUNT, (U16(raw1, S_MNT_COUNT) + 1) % 0x1_0000);
    var raw3 := PutU16(raw2, S_STATE, EXT2_ERROR_FS);
    var raw4 := Splice(raw3, S_LAST_MOUNTED, ['/' as int, 0]);
    s.(raw := raw4, dev := ROOT_DEV, blockSize := ShiftedSize(U32(raw4, S_LOG_BLOCK_SIZE)), mountPoint := None)
  }

  /** The driver of a device is registered, and has the unit. */
  predicate Opens(io: Io, dev: Dev) { io.Pid(Major(dev)) != NO_PID && io.TargetOf(dev) in io.images }

  /** The state after the fields of the root's superblock, in slot `i`, are filled in. */
  function FillRoot(w: Fs, i: nat): (r: Fs)
    requires i < |w.supers|
    ensures |r.supers| == |w.supers|
  {
    SetSuper(w, i, RootSuper(w.supers[i], w.clock.Now())).(clock := w.clock.After())
  }

  /** Finds the root inode, and records it in the superblock. */
  ghost function FindRoot(w: Fs, t: seq<Inode>, i: nat, robust: Robust): Option<(Fs, seq<Inode>, nat)>
    requires i < |w.supers|
  {
    if !Locatable(w, ROOT_DEV, EXT2_ROOT_INO) then None
    else
      match InodeGet(w, t, ROOT_DEV, EXT2_ROOT_INO, robust)
      case None => None
      case Some((w', t', n)) => Some((SetSuper(w', i, w'.supers[i].(rootDir := Some(n), dirty := true)), t', n))
  }

  /** Mounts the root file system, giving the slot of its root inode; None is a panic, or a
      crash on a full table or a malformed device. */
  ghost function MountRoot(w: Fs, t: seq<Inode>, robust: Robust): Option<(Fs, seq<Inode>, nat)> {
    if w.err != 0 || !Opens(w.io, ROOT_DEV) then None
    else
      match SuperRead(w, ROOT_DEV, robust)
      case None => None
      case Some((w1, slot)) =>
        if slot.None? || w1.err != 0 then None else FindRoot(FillRoot(w1, slot.value), t, slot.value, robust)
  }

  /** What registering the block driver of the root device leads to. */
  datatype Root = Root(w: Fs, t: seq<Inode>, rootDir: nat, workDir: nat)

  /** A row of the driver table is as it was, except that one entry is `pid` if it is the row `named`. */
  predicate RowAfter(row: seq<int>, was: seq<int>, named: bool, maj: bv8, pid: int) {
    && |row| == |was|
    && forall i :: 0 <= i < |row| ==> row[i] == if named && i == maj as int then pid else was[i]
  }

  /** The state after a driver is registered. */
  function WithDriver(w: Fs, isBlock: bool, maj: bv8, pid: int): Fs
    requires maj as int < |w.io.blockPid| == |w.io.charPid|
  {
    if isBlock then w.(io := w.io.(blockPid := w.io.blockPid[maj as int := pid]))
    else w.(io := w.io.(charPid := w.io.charPid[maj as int := pid]))
  }

  function Registered(w: Fs, pid: int): Fs
    requires |w.io.blockPid| == |w.io.charPid| == NUM_DRIVERS
  {
    WithDriver(w, true, ROOT_MAJ, pid)
  }

  ghost function RegisterRoot(w: Fs, t: seq<Inode>, pid: int, robust: Robust): Option<Root>
    requires |w.io.blockPid| == |w.io.charPid| == NUM_DRIVERS
  {
    match MountRoot(Registered(w, pid), t, robust)
    case None => None
    case Some((w1, t1, _)) =>
      var dev := MajMinToDev(ROOT_MAJ, ROOT_MIN);
      match GetOnce(TableState(w1, t1), dev, EXT2_ROOT_INO, robust)
      case None => None
      case Some((s2, rootDir)) =>
        match GetOnce(s2, dev, EXT2_ROOT_INO, robust)
        case None => None
        case Some((s3, workDir)) => Some(Root(s3.w, s3.t, rootDir, workDir))
  }

  // ----- super_read -----

  /** super_read leaves every slot's use as it found it. */
  lemma {:induction false} SuperReadNetZero(w: Fs, dev: Dev, robust: Robust)
    requires Inv(w) && ValidKey(Key(dev, SUPER_BLOCK)) && SuperRead(w, dev, robust).Some?
    ensures NetZero(w, SuperRead(w, dev, robust).value.0)
  {
    hide Get, Put, Inv;
    if SuperGet(w.supers, NO_DEV).Some? {
      var i := SuperGet(w.supers, NO_DEV).value;
      var (w1, p) := Get(w, Key(dev, SUPER_BLOCK)).value;
      GotSlots(w, Key(dev, SUPER_BLOCK));
      PutSlots(SetSuper(w1, i, w1.supers[i].(raw := SuperPart(w1.slots[p].data))), p, robust);
    }
  }

  /** While every unused slot is clean, getting and putting a block of a working device writes
      nothing and raises no error. */
  lemma {:induction false} QuietGet(w: Fs, k: Key)
    requires Inv(w) && FreeClean(w) && Addressable(w.io, k) && Get(w, k).Some?
    ensures var (w1, p) := Get(w, k).value;
      && w1 == w.(slots := w1.slots, order := w1.order)
      && (Dec8(w1.slots[p].count) == 0 ==> !w1.slots[p].dirty)
  {
    GetSlots(w, k);
    EvictionWritesNothing(w, k);
    if Cached(w.slots, k).None? {
      var p := Victim(w).value;
      assert BlockRw(w, p, false) == w;
      RecacheState(w, p, k);
      QuietRecache(w, p, k);
    }
  }

  lemma {:induction false} QuietRecache(w: Fs, p: nat, k: Key)
    requires p < |w.slots| && !w.slots[p].dirty && Addressable(w.io, k)
    ensures Recache(w, p, k).err == w.err && Recache(w, p, k).clock == w.clock
  {}

  lemma {:induction false} QuietPut(w: Fs, p: nat, robust: Robust)
    requires p < |w.slots| && (Dec8(w.slots[p].count) == 0 ==> !w.slots[p].dirty)
    ensures Put(w, p, true, robust) == Set(w, p, w.slots[p].(count := Dec8(w.slots[p].count)))
    ensures Put(w, p, true, robust).slots == w.slots[p := w.slots[p].(count := Dec8(w.slots[p].count))]
  {}

  /** Borrowing a block without writing to it leaves every unused slot clean. */
  lemma {:induction false} BorrowFreeClean(w: Fs, k: Key, robust: Robust)
    requires Inv(w) && FreeClean(w) && Addressable(w.io, k) && Borrow(w, k, None, robust).Some?
    ensures FreeClean(Borrow(w, k, None, robust).value)
  {
    hide Inv, FreeClean, Addressable, Get, Put;
    var (w1, p) := Get(w, k).value;
    QuietGet(w, k);
    QuietPut(w1, p, robust);
    FreeStaysClean(w, k, Borrow(w, k, None, robust).value);
  }

  /** Reading an inode in leaves every unused slot clean. */
  lemma {:induction false} ReadFreeClean(w: Fs, i: Inode, robust: Robust)
    requires Inv(w) && FreeClean(w) && ReadyIno(w, i.dev, i.ino)
    ensures Locatable(w, i.dev, i.ino)
    ensures InodeRw(w, i, true, robust).Some? ==> FreeClean(InodeRw(w, i, true, robust).value.0)
  {
    ReadyLocatable(w, i.dev, i.ino);
    ReadySize(w, i.dev);
    if i.dirty && InodeRw(w, i, true, robust).Some? {
      var k1, k2 := Key(i.dev, GROUP_BLOCK), InodeKey(w, i.dev, i.ino);
      InodeRwBorrows(w, i, true, robust);
      GroupFindBorrows(w, i.dev, i.ino, robust);
      assert k1 in Logical(w) && k2 in Logical(w);
      assert InodeWrite(w, i, true) == None;
      hide *;
      InAddressable(w, k1);
      InAddressable(w, k2);
      var w1 := Borrow(w, k1, None, robust).value;
      BorrowKeeps(w, k1, None, robust);
      BorrowFreeClean(w, k1, robust);
      BorrowFreeClean(w1, k2, robust);
    }
  }

  /** super_read, step by step. */
  lemma {:induction false} SuperReadUnfolds(w: Fs, dev: Dev, robust: Robust)
    ensures var r := SuperRead(w, dev, robust);
      match SuperGet(w.supers, NO_DEV)
      case None => r == Some((w, None))
      case Some(i) =>
        match Get(w, Key(dev, SUPER_BLOCK))
        case None => r.None?
        case Some((w1, p)) =>
          r == Some((Put(SetSuper(w1, i, w1.supers[i].(raw := SuperPart(w1.slots[p].data))), p, true, robust), Some(i)))
  {
    hide Get, Put, SuperPart;
  }

  /** super_read panics exactly if the table has room, no slot carries the superblock's block and every
      slot is in use; on a full table it does nothing. */
  lemma {:induction false} SuperReadPanics(w: Fs, dev: Dev, robust: Robust)
    requires Inv(w)
    ensures SuperRead(w, dev, robust).None? <==>
      && (exists i :: 0 <= i < |w.supers| && w.supers[i].dev == NO_DEV)
      && (forall p: nat :: !Caches(w.slots, p, Key(dev, SUPER_BLOCK)))
      && (forall p :: 0 <= p < |w.slots| ==> w.slots[p].count > 0)
    ensures (forall i :: 0 <= i < |w.supers| ==> w.supers[i].dev != NO_DEV)
        ==> SuperRead(w, dev, robust) == Some((w, None))
  {
    SuperReadUnfolds(w, dev, robust);
    GetPanics(w, Key(dev, SUPER_BLOCK));
    hide Get, Put, Inv, SuperRead, SuperPart, Caches;
    if SuperGet(w.supers, NO_DEV).Some? {
      FreeSuper(w.supers);
    }
  }

  // Write-backs stamp mounted superblocks only: they leave the unused slots of the table alone.

  lemma {:induction false} TransferMisses(w: Fs, p: nat, read: bool, i: nat)
    requires p < |w.slots| && i < |w.supers|
    requires w.supers[i].dev == NO_DEV && (w.slots[p].dirty ==> w.slots[p].dev != NO_DEV)
    ensures BlockRw(w, p, read).supers[i] == w.supers[i]
  {}

  lemma {:induction false} GetMisses(w: Fs, k: Key, i: nat)
    requires Inv(w) && ValidKey(k) && Get(w, k).Some? && i < |w.supers| && w.supers[i].dev == NO_DEV
    ensures Get(w, k).value.0.supers[i] == w.supers[i]
  {
    GetSlots(w, k);
    if Cached(w.slots, k).None? {
      var p := Victim(w).value;
      TransferMisses(w, p, false, i);
      RecacheState(w, p, k);
      hide BlockRw, Recache;
    }
  }

  lemma {:induction false} PutMisses(w: Fs, p: nat, robust: Robust, i: nat)
    requires p < |w.slots| && i < |w.supers| && w.supers[i].dev == NO_DEV && w.slots[p].dev != NO_DEV
    ensures Put(w, p, true, robust).supers[i] == w.supers[i]
  {
    TransferMisses(Set(w, p, w.slots[p].(count := Dec8(w.slots[p].count))), p, false, i);
    hide BlockRw;
  }

  /** Every byte of the on-device part is the block's, and everything else is as it was. */
  predicate CopiedFrom(s: Super, was: Super, data: BlockData) {
    && (forall i :: 0 <= i < SUPER_BYTES ==> s.raw[i] == data[i])
    && s == was.(raw := s.raw)
  }

  lemma {:induction false} PartCopies(was: Super, data: BlockData)
    ensures CopiedFrom(was.(raw := SuperPart(data)), was, data)
  {}

  lemma {:induction false} CopiedIs(s: Super, was: Super, data: BlockData)
    requires CopiedFrom(s, was, data)
    ensures s == was.(raw := data[..SUPER_BYTES])
  {}

  /** super_read on a working device, in any sound state in which a slot is in nobody's use: the
      superblock comes off the logical disk into the first free slot of the table; apart from stamps,
      nothing else in the table changes, the logical disk stays, and every block in use stays so. */
  lemma {:induction false} SuperReadGives(w: Fs, dev: Dev, robust: Robust)
    requires Inv(w) && Key(dev, SUPER_BLOCK) in Logical(w) && !AllHeld(w) && SuperGet(w.supers, NO_DEV).Some?
    ensures SuperRead(w, dev, robust).Some?
    ensures var (w', slot), i := SuperRead(w, dev, robust).value, SuperGet(w.supers, NO_DEV).value;
      && slot == Some(i) && i < |w'.supers| == |w.supers|
      && CopiedFrom(w'.supers[i], w.supers[i], Logical(w)[Key(dev, SUPER_BLOCK)])
      && SameButStamps(w.supers[i := w'.supers[i]], w'.supers)
      && Inv(w') && Logical(w') == Logical(w) && NetZero(w, w') && !AllHeld(w')
  {
    hide *;
    var k, i := Key(dev, SUPER_BLOCK), SuperGet(w.supers, NO_DEV).value;
    InAddressable(w, k);
    GotBlock(w, k);
    FreeSuper(w.supers);
    SuperReadUnfolds(w, dev, robust);
    GetKeeps(w, k);
    GetStamps(w, k);
    GetMisses(w, k, i);
    var (w1, p) := Get(w, k).value;
    var s := w1.supers[i].(raw := SuperPart(w1.slots[p].data));
    var w2 := SetSuper(w1, i, s);
    SetSuperKeeps(w1, i, s);
    SetSuperSlots(w1, i, s);
    HandedOut(w1, p, k);
    PutKeeps(w2, p, true, robust);
    PutMisses(w2, p, robust, i);
    StampsOutside(w.supers, w1.supers, i, s);
    StampsCompose(w.supers[i := s], w2.supers, Put(w2, p, true, robust).supers);
    PartCopies(w.supers[i], w1.slots[p].data);
    SuperReadNetZero(w, dev, robust);
    AllHeldSame(w, SuperRead(w, dev, robust).value.0);
  }

  lemma {:induction false} FreeSuper(supers: seq<Super>)
    requires SuperGet(supers, NO_DEV).Some?
    ensures SuperGet(supers, NO_DEV).value < |supers| && supers[SuperGet(supers, NO_DEV).value].dev == NO_DEV
  {}

  /** Outside SLOPPY mode super_read leaves no block unwritten that was not before. */
  lemma {:induction false} SuperReadUnwritten(w: Fs, dev: Dev, robust: Robust, q: nat)
    requires Inv(w) && ValidKey(Key(dev, SUPER_BLOCK)) && SuperRead(w, dev, robust).Some? && !robust.Sloppy?
    ensures Unwritten(SuperRead(w, dev, robust).value.0, q) ==> Unwritten(w, q)
  {
    SuperReadUnfolds(w, dev, robust);
    if SuperGet(w.supers, NO_DEV).Some? {
      var i := SuperGet(w.supers, NO_DEV).value;
      var (w1, p) := Get(w, Key(dev, SUPER_BLOCK)).value;
      GotSlots(w, Key(dev, SUPER_BLOCK));
      hide Get, Put, Inv, SuperRead, SuperPart;
      var w2 := SetSuper(w1, i, w1.supers[i].(raw := SuperPart(w1.slots[p].data)));
      PutSlots(w2, p, robust);
      if w2.slots[p].count == 1 {
        PutCleans(w2, p, robust);
      }
    }
  }

  /** A get of a block that the devices have goes through while a slot is in nobody's use. */
  lemma {:induction false} GotBlock(w: Fs, k: Key)
    requires Inv(w) && Addressable(w.io, k) && !AllHeld(w)
    ensures Get(w, k).Some?
  {
    GetPanics(w, k);
  }

  lemma {:induction false} GetStamps(w: Fs, k: Key)
    requires Inv(w) && ValidKey(k) && Get(w, k).Some?
    ensures SameButStamps(w.supers, Get(w, k).value.0.supers)
  {
    GetSlots(w, k);
  }

  lemma {:induction false} StampsOutside(s1: seq<Super>, s2: seq<Super>, i: nat, s: Super)
    requires SameButStamps(s1, s2) && i < |s1|
    ensures SameButStamps(s1[i := s], s2[i := s])
  {}

  /** While every unused block is clean, super_read moreover writes nothing, stamps nothing and raises
      no error. */
  lemma {:induction false} SuperReadQuiet(w: Fs, dev: Dev, robust: Robust)
    requires Inv(w) && FreeClean(w) && Key(dev, SUPER_BLOCK) in Logical(w) && !AllHeld(w)
    requires SuperGet(w.supers, NO_DEV).Some?
    ensures SuperRead(w, dev, robust).Some?
    ensures var (w', slot), i := SuperRead(w, dev, robust).value, SuperGet(w.supers, NO_DEV).value;
      && slot == Some(i) && i < |w.supers| == |w'.supers| && FreeClean(w')
      && CopiedFrom(w'.supers[i], w.supers[i], Logical(w)[Key(dev, SUPER_BLOCK)])
      && w' == w.(slots := w'.slots, order := w'.order, supers := w.supers[i := w'.supers[i]])
  {
    hide Get, Put, Inv, Logical, Addressable, FreeClean, AllHeld, SuperPart, Caches;
    var k, i := Key(dev, SUPER_BLOCK), SuperGet(w.supers, NO_DEV).value;
    InAddressable(w, k);
    GotBlock(w, k);
    QuietGet(w, k);
    GetKeeps(w, k);
    var (w1, p) := Get(w, k).value;
    var w2 := SetSuper(w1, i, w1.supers[i].(raw := SuperPart(w1.slots[p].data)));
    QuietPut(w2, p, robust);
    PartCopies(w.supers[i], w1.slots[p].data);
    FreeStaysClean(w, k, SuperRead(w, dev, robust).value.0);
  }

  lemma {:induction false} SetSuperSlots(w: Fs, i: nat, s: Super)
    requires i < |w.supers|
    ensures SetSuper(w, i, s).slots == w.slots && SetSuper(w, i, s).supers == w.supers[i := s]
  {}

  lemma {:induction false} HandedOut(w: Fs, p: nat, k: Key)
    requires Caches(w.slots, p, k) && ValidKey(k)
    ensures p < |w.slots| && w.slots[p].dev != NO_DEV
  {}

  /** Getting a block and putting it back leaves every unused slot clean. */
  lemma {:induction false} FreeStaysClean(w: Fs, k: Key, w': Fs)
    requires Inv(w) && FreeClean(w) && Addressable(w.io, k) && Get(w, k).Some?
    requires var (w1, p) := Get(w, k).value;
      w'.slots == w1.slots[p := w1.slots[p].(count := Dec8(w1.slots[p].count))]
    ensures FreeClean(w')
  {
    GetSlots(w, k);
    QuietGet(w, k);
    hide Get, Inv, Addressable;
  }

  /** Filling in a slot of the superblock table that no dirty block depends on. */
  lemma {:induction false} SetSuperKeeps(w: Fs, i: nat, s: Super)
    requires Inv(w) && i < |w.supers| && (w.supers[i].dev == NO_DEV || s.dev == w.supers[i].dev)
    ensures Inv(SetSuper(w, i, s)) && Logical(SetSuper(w, i, s)) == Logical(w)
  {
    var w' := SetSuper(w, i, s);
    forall dev | dev != NO_DEV && SuperGet(w.supers, dev).Some? ensures SuperGet(w'.supers, dev).Some? {
      var j := SuperGet(w.supers, dev).value;
      assert w'.supers[j].dev == dev;
    }
    LogicalExtensional(w, w');
  }

  // ----- Mounting the root -----

  /** The geometry that a superblock on a device describes. */
  function GeoIn(sp: SuperRaw): Geometry {
    Geometry(ShiftedSize(U32(sp, S_LOG_BLOCK_SIZE)), U16(sp, S_INODE_SIZE),
             U32(sp, S_INODES_PER_GROUP), U32(sp, S_INODES_COUNT))
  }

  /** Mounting changes none of the fields that place inodes. */
  lemma {:induction false} RootSuperGeo(s: Super, now: u32)
    ensures RootSuper(s, now).Geo() == GeoIn(s.raw)
  {
    hide ShiftedSize, U16, U32, Bytes16, Bytes32, Splice;
    var raw1 := PutU32(s.raw, S_MTIME, now);
    var raw2 := PutU16(raw1, S_MNT_COUNT, (U16(raw1, S_MNT_COUNT) + 1) % 0x1_0000);
    var raw3 := PutU16(raw2, S_STATE, EXT2_ERROR_FS);
    SameGeoFields(s.raw, S_MTIME, Bytes32(now));
    SameGeoFields(raw1, S_MNT_COUNT, Bytes16((U16(raw1, S_MNT_COUNT) + 1) % 0x1_0000));
    SameGeoFields(raw2, S_STATE, Bytes16(EXT2_ERROR_FS));
    SameGeoFields(raw3, S_LAST_MOUNTED, ['/' as int, 0]);
  }

  predicate StoredByMount(i: nat) {
    || S_MTIME <= i < S_MTIME + 4 || S_MNT_COUNT <= i < S_MNT_COUNT + 2 || S_STATE <= i < S_STATE + 2
    || S_LAST_MOUNTED <= i < S_LAST_MOUNTED + 2
  }

  /** What mounting stores in the superblock: the time, one more mount, the unclean state and the
      mount point; no other byte of its on-device part changes. */
  lemma {:induction false} RootSuperFields(s: Super, now: u32)
    ensures var r := RootSuper(s, now).raw;
      && U32(r, S_MTIME) == now && U16(r, S_MNT_COUNT) == (U16(s.raw, S_MNT_COUNT) + 1) % 0x1_0000
      && U16(r, S_STATE) == EXT2_ERROR_FS && r[S_LAST_MOUNTED..S_LAST_MOUNTED + 2] == ['/' as int, 0]
    ensures var r := RootSuper(s, now).raw;
      forall i :: 0 <= i < SUPER_BYTES && !StoredByMount(i) ==> r[i] == s.raw[i]
  {
    hide ShiftedSize, U16, U32, Bytes16, Bytes32, Splice;
    var count := (U16(s.raw, S_MNT_COUNT) + 1) % 0x1_0000;
    var raw1 := PutU32(s.raw, S_MTIME, now);
    var raw2 := PutU16(raw1, S_MNT_COUNT, count);
    var raw3 := PutU16(raw2, S_STATE, EXT2_ERROR_FS);
    var root := ['/' as int, 0];
    FieldReads(s.raw, S_MTIME, now);
    FieldsMissed(s.raw, S_MTIME, Bytes32(now), S_MNT_COUNT);
    ShortReads(raw1, S_MNT_COUNT, count);
    FieldsMissed(raw1, S_MNT_COUNT, Bytes16(count), S_MTIME);
    ShortReads(raw2, S_STATE, EXT2_ERROR_FS);
    FieldsMissed(raw2, S_STATE, Bytes16(EXT2_ERROR_FS), S_MTIME);
    FieldsMissed(raw2, S_STATE, Bytes16(EXT2_ERROR_FS), S_MNT_COUNT);
    FieldsMissed(raw3, S_LAST_MOUNTED, root, S_MTIME);
    FieldsMissed(raw3, S_LAST_MOUNTED, root, S_MNT_COUNT);
    FieldsMissed(raw3, S_LAST_MOUNTED, root, S_STATE);
    SpliceBytes(s.raw, S_MTIME, Bytes32(now));
    SpliceBytes(raw1, S_MNT_COUNT, Bytes16(count));
    SpliceBytes(raw2, S_STATE, Bytes16(EXT2_ERROR_FS));
    SpliceBytes(raw3, S_LAST_MOUNTED, root);
  }

  /** A superblock after mounting, given the block it was read from and the time: what mounting stores is
      there, and every other byte of the on-device part, the time of last write aside, is the block's. */
  predicate MountedFrom(s: Super, block: BlockData, now: u32) {
    && s.dev == ROOT_DEV && s.mountPoint == None && s.blockSize == ShiftedSize(U32(block, S_LOG_BLOCK_SIZE))
    && U32(s.raw, S_MTIME) == now && U16(s.raw, S_MNT_COUNT) == (U16(block, S_MNT_COUNT) + 1) % 0x1_0000
    && U16(s.raw, S_STATE) == EXT2_ERROR_FS && s.raw[S_LAST_MOUNTED..S_LAST_MOUNTED + 2] == ['/' as int, 0]
    && forall i :: 0 <= i < SUPER_BYTES && !StoredByMount(i) && !StampedByWrites(i) ==> s.raw[i] == block[i]
  }

  predicate StampedByWrites(i: nat) { S_WTIME <= i < S_WTIME + 4 }

  lemma {:induction false} RootSuperMounted(s: Super, block: BlockData, now: u32)
    requires s.raw == block[..SUPER_BYTES]
    ensures MountedFrom(RootSuper(s, now), block, now)
  {
    RootSuperFields(s, now);
    RootSuperGeo(s, now);
    RootSuperDev(s, now);
    PrefixField(block, S_MNT_COUNT);
    PrefixField(block, S_LOG_BLOCK_SIZE);
    hide RootSuper, U16, U32, ShiftedSize, MajMinToDev;
  }

  lemma {:induction false} PrefixField(block: BlockData, at: nat)
    requires at + 4 <= SUPER_BYTES
    ensures U16(block[..SUPER_BYTES], at) == U16(block, at) && U32(block[..SUPER_BYTES], at) == U32(block, at)
  {}

  /** Stamps, and the root inode's slot, leave it so. */
  lemma {:induction false} StaysMounted(s: Super, s': Super, block: BlockData, now: u32)
    requires MountedFrom(s, block, now) && s'.Erased() == s.Erased()
    ensures MountedFrom(s', block, now)
  {
    var r, r' := s.raw, s'.raw;
    assert PutU32(r, S_WTIME, 0) == PutU32(r', S_WTIME, 0);
    SpliceBytes(r, S_WTIME, Bytes32(0));
    SpliceBytes(r', S_WTIME, Bytes32(0));
    FieldsMissed(r, S_WTIME, Bytes32(0), S_MTIME);
    FieldsMissed(r', S_WTIME, Bytes32(0), S_MTIME);
    FieldsMissed(r, S_WTIME, Bytes32(0), S_MNT_COUNT);
    FieldsMissed(r', S_WTIME, Bytes32(0), S_MNT_COUNT);
    FieldsMissed(r, S_WTIME, Bytes32(0), S_STATE);
    FieldsMissed(r', S_WTIME, Bytes32(0), S_STATE);
    SpliceMisses(r, S_WTIME, Bytes32(0), S_LAST_MOUNTED, S_LAST_MOUNTED + 2);
    SpliceMisses(r', S_WTIME, Bytes32(0), S_LAST_MOUNTED, S_LAST_MOUNTED + 2);
    assert s'.Erased().dev == s.Erased().dev && s'.Erased().blockSize == s.Erased().blockSize;
    assert s'.Erased().mountPoint == s.Erased().mountPoint;
    hide U16, U32, Splice, Bytes32, ShiftedSize, MajMinToDev;
  }

  lemma {:induction false} SameGeoFields(raw: SuperRaw, at: nat, src: seq<byte>)
    requires at + |src| <= SUPER_BYTES && S_INODES_PER_GROUP + 4 <= at
    requires at + |src| <= S_INODE_SIZE || S_INODE_SIZE + 4 <= at
    ensures GeoIn(Splice(raw, at, src)) == GeoIn(raw)
  {
    FieldsMissed(raw, at, src, S_INODES_COUNT);
    FieldsMissed(raw, at, src, S_LOG_BLOCK_SIZE);
    FieldsMissed(raw, at, src, S_INODES_PER_GROUP);
    FieldsMissed(raw, at, src, S_INODE_SIZE);
  }

  /** The superblock on the root device. */
  ghost function RootPart(d: Disk): SuperRaw
    requires Key(ROOT_DEV, SUPER_BLOCK) in d
  {
    d[Key(ROOT_DEV, SUPER_BLOCK)][..SUPER_BYTES]
  }

  /** The root device carries a well-formed file system with a root inode. */
  ghost predicate RootDiskOk(d: Disk) {
    && Key(ROOT_DEV, SUPER_BLOCK) in d && DeviceOk(d, GeoIn(RootPart(d)), ROOT_DEV)
    && ValidIno(GeoIn(RootPart(d)), EXT2_ROOT_INO)
  }

  /** Nothing is mounted and no inode is in use. */
  ghost predicate NothingMounted(w: Fs, t: seq<Inode>) {
    && w.supers != [] && t != []
    && (forall i :: 0 <= i < |w.supers| ==> w.supers[i].dev == NO_DEV)
    && (forall n :: 0 <= n < |t| ==> t[n].dev == NO_DEV && t[n].count == 0)
  }

  /** Exactly one slot of the superblock table, the first, is of the root device. */
  ghost predicate OnlyRoot(w: Fs) {
    && w.supers != [] && w.supers[0].dev == ROOT_DEV
    && forall i :: 0 < i < |w.supers| ==> w.supers[i].dev == NO_DEV
  }

  lemma {:induction false} FirstFreeSuper(w: Fs, t: seq<Inode>)
    requires NothingMounted(w, t)
    ensures SuperGet(w.supers, NO_DEV) == Some(0)
  {}

  lemma {:induction false} RootDevFacts()
    ensures ROOT_DEV != NO_DEV && MajMinToDev(ROOT_MAJ, ROOT_MIN) == ROOT_DEV
  {}

  /** A root device with a superblock on it can be opened. */
  lemma {:induction false} RootOpens(w: Fs)
    requires RootDiskOk(Logical(w))
    ensures Opens(w.io, ROOT_DEV) && ValidKey(Key(ROOT_DEV, SUPER_BLOCK)) && Major(ROOT_DEV) as int < NUM_DRIVERS
  {
    InAddressable(w, Key(ROOT_DEV, SUPER_BLOCK));
  }

  /** By the time mount_root looks up the root inode, its device is mounted and well formed. */
  lemma {:induction false} RootReady(w: Fs, t: seq<Inode>, robust: Robust)
    requires Inv(w) && FreeClean(w) && !AllHeld(w) && NothingMounted(w, t) && RootDiskOk(Logical(w))
    ensures var r := SuperRead(w, ROOT_DEV, robust);
      && r.Some? && r.value.1 == Some(0) && r.value.0.err == w.err && |r.value.0.supers| == |w.supers|
      && var v := FillRoot(r.value.0, 0);
      && Inv(v) && Logical(v) == Logical(w) && !AllHeld(v) && OnlyRoot(v) && FreeClean(v) && NetZero(w, v)
      && ReadyIno(v, ROOT_DEV, EXT2_ROOT_INO)
      && MountedFrom(v.supers[0], Logical(w)[Key(ROOT_DEV, SUPER_BLOCK)], w.clock.Now()) && v.clock == w.clock.After()
  {
    hide Inv, Logical, SuperRead, RootSuper, GeoIn, DeviceOk, FreeClean, AllHeld, MajMinToDev, SuperPart, ValidIno;
    hide CopiedFrom, MountedFrom, NetZero;
    FirstFreeSuper(w, t);
    RootDevFacts();
    SuperReadGives(w, ROOT_DEV, robust);
    SuperReadQuiet(w, ROOT_DEV, robust);
    var w1 := SuperRead(w, ROOT_DEV, robust).value.0;
    CopiedIs(w1.supers[0], w.supers[0], Logical(w)[Key(ROOT_DEV, SUPER_BLOCK)]);
    RootSuperMounted(w1.supers[0], Logical(w)[Key(ROOT_DEV, SUPER_BLOCK)], w1.clock.Now());
    var s := RootSuper(w1.supers[0], w1.clock.Now());
    RootSuperGeo(w1.supers[0], w1.clock.Now());
    SetSuperKeeps(w1, 0, s);
    var w2 := SetSuper(w1, 0, s);
    RootSuperDev(w1.supers[0], w1.clock.Now());
    TickIrrelevant(w2, ROOT_DEV, EXT2_ROOT_INO);
    SameHolders(w, w1, FillRoot(w1, 0));
    assert FillRoot(w1, 0) == w2.(clock := w2.clock.After());
  }

  lemma {:induction false} SameHolders(w: Fs, w1: Fs, w2: Fs)
    requires w2.slots == w1.slots
    ensures (AllHeld(w2) <==> AllHeld(w1)) && (FreeClean(w2) <==> FreeClean(w1)) && (NetZero(w, w2) <==> NetZero(w, w1))
  {}

  lemma {:induction false} RootSuperDev(s: Super, now: u32)
    ensures RootSuper(s, now).dev == ROOT_DEV && RootSuper(s, now).mountPoint == None
  {}

  /** An empty table is coherent with any sound state. */
  lemma {:induction false} EmptyTable(w: Fs, t: seq<Inode>)
    requires Inv(w) && forall n :: 0 <= n < |t| ==> t[n].dev == NO_DEV && t[n].count == 0
    ensures TableInv(w, t)
  {}

  /** A clean record of the root inode, in the place of record `i`. */
  function RootRecord(i: Inode, bytes: seq<byte>, count: byte): Inode
    requires |bytes| <= INODE_BYTES
  {
    Inode(Splice(i.raw, 0, bytes), ROOT_DEV, EXT2_ROOT_INO, count, false, false)
  }

  /** Finding the root inode in the empty table reads it in from the logical disk. */
  lemma {:induction false} RootInodeRead(v: Fs, t: seq<Inode>, robust: Robust)
    requires Inv(v) && FreeClean(v) && !AllHeld(v) && ReadyIno(v, ROOT_DEV, EXT2_ROOT_INO)
    requires t != [] && forall n :: 0 <= n < |t| ==> t[n].dev == NO_DEV && t[n].count == 0
    ensures Locatable(v, ROOT_DEV, EXT2_ROOT_INO) && GeoOf(v, ROOT_DEV).inodeSize <= INODE_BYTES
    ensures var r := InodeGet(v, t, ROOT_DEV, EXT2_ROOT_INO, robust);
      r.Some? &&
        var (w', t', n) := r.value;
        && n < |t| && t' == t[n := RootRecord(t[n], Visible(v, ROOT_DEV, EXT2_ROOT_INO), 1)]
        && Inv(w') && SameButStamps(v.supers, w'.supers) && Logical(w') == Logical(v)
        && FreeClean(w') && NetZero(v, w')
  {
    hide Inv, FreeClean, AllHeld, ReadyIno, Logical, Visible, InodeGet, Locatable, NetZero, SameButStamps;
    hide Cached, MajMinToDev, InodeKey;
    RootDevFacts();
    EmptyTable(v, t);
    InodeGetPanics(v, t, ROOT_DEV, EXT2_ROOT_INO, robust);
    assert t[0].count == 0 && forall n :: 0 <= n < |t| ==> (t[n].dev, t[n].ino) != (ROOT_DEV, EXT2_ROOT_INO);
    InodeGetGives(v, t, ROOT_DEV, EXT2_ROOT_INO, robust);
    GetFreeClean(v, t, ROOT_DEV, EXT2_ROOT_INO, robust);
  }

  /** inode_get leaves every unused slot of the cache clean. */
  lemma {:induction false} GetFreeClean(w: Fs, t: seq<Inode>, dev: Dev, ino: u32, robust: Robust)
    requires Inv(w) && FreeClean(w) && ReadyIno(w, dev, ino)
    ensures Locatable(w, dev, ino)
    ensures InodeGet(w, t, dev, ino, robust).Some? ==> FreeClean(InodeGet(w, t, dev, ino, robust).value.0)
  {
    hide Inv, FreeClean, ReadyIno, InodeRw, Locatable;
    ReadyLocatable(w, dev, ino);
    if Find(t, dev, ino).None? && FindFree(t).Some? {
      ReadFreeClean(w, Fresh(t[FindFree(t).value], dev, ino), robust);
    }
  }

  /** What mounting the root achieves: the root device in the one mounted slot, whose root inode
      is slot `n` of the inode table, read in from the unchanged logical disk. */
  ghost predicate RootMounted(w: Fs, w': Fs, t: seq<Inode>, t': seq<Inode>, n: nat, count: byte) {
    && Inv(w') && Logical(w') == Logical(w) && FreeClean(w') && NetZero(w, w') && TableInv(w', t')
    && OnlyRoot(w') && w'.supers[0].rootDir == Some(n) && w'.supers[0].dirty
    && Key(ROOT_DEV, SUPER_BLOCK) in Logical(w)
    && MountedFrom(w'.supers[0], Logical(w)[Key(ROOT_DEV, SUPER_BLOCK)], w.clock.Now())
    && ReadyIno(w', ROOT_DEV, EXT2_ROOT_INO) && n < |t| && |t'| == |t|
    && |Visible(w', ROOT_DEV, EXT2_ROOT_INO)| <= INODE_BYTES
    && t' == t[n := RootRecord(t[n], Visible(w', ROOT_DEV, EXT2_ROOT_INO), count)]
  }

  /** The table with the root inode's record alone is coherent. */
  lemma {:induction false} RootTable(w: Fs, t: seq<Inode>, n: nat, count: byte)
    requires Inv(w) && ReadyIno(w, ROOT_DEV, EXT2_ROOT_INO) && n < |t| && count > 0
    requires forall m :: 0 <= m < |t| ==> t[m].dev == NO_DEV && t[m].count == 0
    ensures var bytes := Visible(w, ROOT_DEV, EXT2_ROOT_INO);
      && |bytes| <= INODE_BYTES
      && TableInv(w, t[n := RootRecord(t[n], bytes, count)])
  {
    hide Inv, DeviceOk, Visible, MajMinToDev;
    RootDevFacts();
    VisibleSize(w, ROOT_DEV, EXT2_ROOT_INO);
  }

  /** Changing the in-memory fields of a mounted superblock moves no inode. */
  lemma {:induction false} SetRootDir(w: Fs, s: Super)
    requires Inv(w) && OnlyRoot(w) && s.dev == ROOT_DEV && s.Geo() == w.supers[0].Geo()
    requires ReadyIno(w, ROOT_DEV, EXT2_ROOT_INO)
    ensures var w' := SetSuper(w, 0, s);
      && Inv(w') && Logical(w') == Logical(w) && OnlyRoot(w') && w'.supers[0] == s
      && ReadyIno(w', ROOT_DEV, EXT2_ROOT_INO)
      && Visible(w', ROOT_DEV, EXT2_ROOT_INO) == Visible(w, ROOT_DEV, EXT2_ROOT_INO)
  {
    hide Inv, Logical, DeviceOk, ValidIno, InodeBytes, MajMinToDev;
    SetSuperKeeps(w, 0, s);
    assert SuperGet(w.supers, ROOT_DEV) == Some(0) && SuperGet(SetSuper(w, 0, s).supers, ROOT_DEV) == Some(0);
  }

  lemma {:induction false} StampsKeepOnlyRoot(w: Fs, w': Fs)
    requires OnlyRoot(w) && SameButStamps(w.supers, w'.supers)
    ensures OnlyRoot(w')
  {
    forall i | 0 <= i < |w.supers| ensures w'.supers[i].dev == w.supers[i].dev {
      assert w.supers[i].Erased().dev == w'.supers[i].Erased().dev;
    }
  }

  lemma {:induction false} MountRootIs(w: Fs, t: seq<Inode>, robust: Robust, w1: Fs)
    requires w.err == 0 && Opens(w.io, ROOT_DEV) && w1.supers != []
    requires SuperRead(w, ROOT_DEV, robust) == Some((w1, Some(0))) && w1.err == 0
    ensures MountRoot(w, t, robust) == FindRoot(FillRoot(w1, 0), t, 0, robust)
  {
    hide SuperRead, FindRoot, FillRoot, Opens, MajMinToDev;
  }

  lemma {:induction false} RootMountedFrom(w: Fs, v: Fs, w3: Fs, s: Super)
    requires RootDiskOk(Logical(w)) && v.supers != [] && SameButStamps(v.supers, w3.supers)
    requires MountedFrom(v.supers[0], Logical(w)[Key(ROOT_DEV, SUPER_BLOCK)], w.clock.Now())
    requires s == w3.supers[0].(rootDir := s.rootDir, dirty := s.dirty)
    ensures Key(ROOT_DEV, SUPER_BLOCK) in Logical(w)
    ensures MountedFrom(s, Logical(w)[Key(ROOT_DEV, SUPER_BLOCK)], w.clock.Now())
  {
    StaysMounted(v.supers[0], w3.supers[0], Logical(w)[Key(ROOT_DEV, SUPER_BLOCK)], w.clock.Now());
    hide Logical, DeviceOk, GeoIn, ShiftedSize, U16, U32, MajMinToDev;
  }

  /** mount_root, on initial tables and a well-formed root device whose driver is registered,
      does not panic and mounts the root. */
  lemma {:induction false} MountRootGives(w: Fs, t: seq<Inode>, robust: Robust)
    requires Inv(w) && FreeClean(w) && !AllHeld(w) && NothingMounted(w, t) && RootDiskOk(Logical(w))
    requires w.err == 0 && Opens(w.io, ROOT_DEV)
    ensures MountRoot(w, t, robust).Some?
    ensures var (w', t', n) := MountRoot(w, t, robust).value; RootMounted(w, w', t, t', n, 1)
  {
    hide Inv, FreeClean, AllHeld, RootDiskOk, Logical, Opens, FillRoot, InodeGet, SuperRead, ReadyIno, GeoOf, Visible;
    hide MajMinToDev, MountRoot, SameButStamps, Locatable, OnlyRoot, NetZero, TableInv, MountedFrom;
    RootReady(w, t, robust);
    var w1 := SuperRead(w, ROOT_DEV, robust).value.0;
    MountRootIs(w, t, robust, w1);
    var v := FillRoot(w1, 0);
    RootInodeRead(v, t, robust);
    var (w3, t3, n) := InodeGet(v, t, ROOT_DEV, EXT2_ROOT_INO, robust).value;
    SameDisk(v, w3, ROOT_DEV, EXT2_ROOT_INO);
    StampsKeepOnlyRoot(v, w3);
    var s := w3.supers[0].(rootDir := Some(n), dirty := true);
    OnlyRootDev(w3);
    SetRootDir(w3, s);
    VisibleSize(v, ROOT_DEV, EXT2_ROOT_INO);
    NetZeroComposes(w, v, w3);
    SameHolders(w, w3, SetSuper(w3, 0, s));
    RootTable(SetSuper(w3, 0, s), t, n, 1);
    RootMountedFrom(w, v, w3, s);
    assert RootMounted(w, SetSuper(w3, 0, s), t, t3, n, 1);
  }

  lemma {:induction false} OnlyRootDev(w: Fs)
    requires OnlyRoot(w)
    ensures w.supers != [] && w.supers[0].dev == ROOT_DEV
  {}

  /** Registering the root device's driver, on initial tables and a well-formed root device: the
      root and working directories and the superblock's root inode are one record with three
      users, whose contents are the root inode's on the logical disk; that disk is unchanged, and
      only the root device is mounted. */
  lemma {:induction false} RegisterRootGives(w: Fs, t: seq<Inode>, pid: int, robust: Robust)
    requires |w.io.blockPid| == |w.io.charPid| == NUM_DRIVERS
    requires var w0 := Registered(w, pid);
      && Inv(w0) && FreeClean(w0) && !AllHeld(w0) && NothingMounted(w0, t) && RootDiskOk(Logical(w0))
      && w0.err == 0 && Opens(w0.io, ROOT_DEV)
    ensures var r := RegisterRoot(w, t, pid, robust);
      r.Some? && r.value.rootDir == r.value.workDir
      && RootMounted(Registered(w, pid), r.value.w, t, r.value.t, r.value.rootDir, 3)
  {
    hide Inv, FreeClean, AllHeld, NothingMounted, RootDiskOk, Logical, Opens, MountRoot, GetOnce, MajMinToDev;
    hide TableOk, TableInv, NetZero, Locatable, ReadyIno, Visible, OnlyRoot;
    var w0 := Registered(w, pid);
    RootDevFacts();
    MountRootGives(w0, t, robust);
    var (w1, t1, n) := MountRoot(w0, t, robust).value;
    var s := TableState(w1, t1);
    ReadyLocatable(w1, ROOT_DEV, EXT2_ROOT_INO);
    OneRecord(w0, t, t1, n);
    NothingInUse(w0, t);
    RootTable(w1, t, n, 3);
    assert s.t[n := s.t[n].(count := 3)] == t[n := RootRecord(t[n], Visible(w1, ROOT_DEV, EXT2_ROOT_INO), 3)];
    assert s.t[n := s.t[n].(count := 1)] == s.t;
    GetRecounted(s, n, 1, robust);
    GetRecounted(s, n, 2, robust);
  }

  lemma {:induction false} NothingInUse(w: Fs, t: seq<Inode>)
    requires NothingMounted(w, t)
    ensures forall m :: 0 <= m < |t| ==> t[m].dev == NO_DEV && t[m].count == 0
  {}

  lemma {:induction false} OneRecord(w: Fs, t: seq<Inode>, t': seq<Inode>, n: nat)
    requires NothingMounted(w, t) && n < |t| == |t'| && t' == t[n := t'[n]] && t'[n].dev != NO_DEV
    ensures TableOk(t')
  {}

  /** mount_root on initial tables goes through only without an earlier error. */
  lemma {:induction false} MountRootClean(w: Fs, t: seq<Inode>, robust: Robust)
    requires MountRoot(w, t, robust).Some?
    ensures w.err == 0 && Opens(w.io, ROOT_DEV)
  {
    hide SuperRead, FindRoot, FillRoot, Opens, MajMinToDev;
  }

  /** After mount_root, the root inode is found in the table. */
  lemma {:induction false} RootFound(w: Fs, t: seq<Inode>, robust: Robust)
    requires Inv(w) && FreeClean(w) && !AllHeld(w) && NothingMounted(w, t) && RootDiskOk(Logical(w))
    requires MountRoot(w, t, robust).Some?
    ensures var (w1, t1, n) := MountRoot(w, t, robust).value;
      && Inv(w1) && ReadyIno(w1, ROOT_DEV, EXT2_ROOT_INO) && Locatable(w1, ROOT_DEV, EXT2_ROOT_INO)
      && n < |t1| && InodeGet(w1, t1, ROOT_DEV, EXT2_ROOT_INO, robust) == Some((w1, t1[n := t1[n].(count := 2)], n))
  {
    hide Inv, FreeClean, AllHeld, RootDiskOk, Logical, Opens, MountRoot, MajMinToDev, TableOk, Locatable;
    hide ReadyIno, Visible, OnlyRoot, InodeRw;
    RootDevFacts();
    MountRootClean(w, t, robust);
    MountRootGives(w, t, robust);
    var (w1, t1, n) := MountRoot(w, t, robust).value;
    ReadyLocatable(w1, ROOT_DEV, EXT2_ROOT_INO);
    OneRecord(w, t, t1, n);
    FoundIs(t1, ROOT_DEV, EXT2_ROOT_INO, n);
  }

  // ----- From initialisation to the mounted root -----

  /** The tables as the initialisers leave them: nothing cached, mounted, in use or registered. */
  ghost predicate ColdStart(w: Fs, t: seq<Inode>) {
    && Initial(w) && NothingMounted(w, t) && w.err == 0
    && w.io.blockPid == seq(NUM_DRIVERS, _ => NO_PID) && w.io.charPid == seq(NUM_DRIVERS, _ => NO_PID)
  }

  /** block_init, super_init and dev_init, over given devices. */
  function ColdFs(images: map<Target, seq<byte>>, clock: Clock): Fs {
    Fs(seq(NUM_BLOCKS, _ => Slot(NO_DEV, 0, 0, false, seq(BLOCK_SIZE, _ => 0))),
       seq(NUM_BLOCKS, i => i),
       Io(seq(NUM_DRIVERS, _ => NO_PID), seq(NUM_DRIVERS, _ => NO_PID), images),
       seq(NUM_SUPERS, _ => Super(seq(SUPER_BYTES, _ => 0), NO_DEV, 0, None, None, false)),
       clock, 0)
  }

  /** inode_init. */
  function ColdInodes(): seq<Inode> {
    seq(NUM_INODES, _ => Inode(seq(INODE_BYTES, _ => 0), NO_DEV, 0, 0, false, false))
  }

  lemma {:induction false} ColdIsCold(images: map<Target, seq<byte>>, clock: Clock)
    ensures ColdStart(ColdFs(images, clock), ColdInodes())
  {}

  /** Right after initialisation, the root device's driver registers: all the tables allow it. */
  lemma {:induction false} ColdAllowsRoot(w: Fs, t: seq<Inode>, pid: int)
    requires ColdStart(w, t)
    ensures |w.io.blockPid| == |w.io.charPid| == NUM_DRIVERS
    ensures var w0 := Registered(w, pid);
      && Inv(w0) && FreeClean(w0) && !AllHeld(w0) && NothingMounted(w0, t) && w0.err == 0
      && Logical(w0) == DeviceMap(w0.io)
  {
    InitialInv(Registered(w, pid));
    assert w.slots[0].count == 0;
  }

  /** From initialisation on, the registration of the root device's driver mounts the root, if the
      device that the driver serves carries a well-formed file system; the cache and the inode table
      are sound afterwards, and nothing is held or unwritten. */
  lemma {:induction false} ColdStartMountsRoot(w: Fs, t: seq<Inode>, pid: int, robust: Robust)
    requires ColdStart(w, t) && |w.io.blockPid| == |w.io.charPid| == NUM_DRIVERS
    requires RootDiskOk(DeviceMap(Registered(w, pid).io))
    ensures var r := RegisterRoot(w, t, pid, robust);
      r.Some? && r.value.rootDir == r.value.workDir
      && RootMounted(Registered(w, pid), r.value.w, t, r.value.t, r.value.rootDir, 3)
      && |r.value.w.slots| == |w.slots| && forall p :: 0 <= p < |w.slots| ==> r.value.w.slots[p].count == 0
  {
    ColdAllowsRoot(w, t, pid);
    var w0 := Registered(w, pid);
    assert w0.slots == w.slots && forall p :: 0 <= p < |w.slots| ==> w.slots[p].count == 0;
    hide Inv, FreeClean, AllHeld, NothingMounted, RootDiskOk, Logical, DeviceMap, Opens, RegisterRoot, MajMinToDev;
    hide TableInv, ReadyIno, Visible, OnlyRoot, ColdStart, Registered;
    RootOpens(w0);
    RegisterRootGives(w, t, pid, robust);
  }
}
