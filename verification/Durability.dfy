/** What reaches the devices, and when: the write-back modes, and transfers that fail. */
module Durability {
  import opened Config
  import opened Bytes
  import opened Device
  import opened Superblock
  import opened Ring
  import opened Cache
  import opened CacheProofs
  import opened Runs
  import opened History

  /** A get does not push a counter past its width. */
  ghost predicate Counted(v: Fs, op: Op) {
    op.GetOp? && Cached(v.slots, op.key).Some? ==> v.slots[Cached(v.slots, op.key).value].count < 0xFF
  }

  /** Every slot in nobody's use is clean. */
  ghost predicate FreeClean(w: Fs) {
    forall p :: 0 <= p < |w.slots| && w.slots[p].count == 0 ==> !w.slots[p].dirty
  }

  /** A put of slot `p` by its only holder. */
  predicate Ends(v: Fs, op: Op, p: nat) {
    op.PutOp? && op.p == p && p < |v.slots| && v.slots[p].count == 1
  }

  predicate CarelessPut(v: Fs, op: Op, p: nat) { Ends(v, op, p) && !op.important }

  /** A block that nobody uses, and that is not written back. */
  predicate Unwritten(w: Fs, p: nat) { p < |w.slots| && w.slots[p].count == 0 && w.slots[p].dirty }

  /** What a request does to an unwritten slot, and when it leaves one: the last put leaves a dirty
      block unwritten in SLOPPY mode and, if it is unimportant, in SANE mode; a sync of its device or
      its reuse ends that. */
  lemma {:induction false} StepUnwritten(v: Fs, op: Op, robust: Robust, p: nat)
    requires Inv(v) && Enabled(v, op) && Step(v, op, robust).Some? && p < |v.slots| && Counted(v, op)
    ensures var v' := Step(v, op, robust).value;
      && |v'.slots| == |v.slots|
      && (Unwritten(v', p) <==>
            if Ends(v, op, p) then v.slots[p].dirty && (robust.Sloppy? || (robust.Sane? && !op.important))
            else Unwritten(v, p) && !HandsOut(v, op, p) && op != SyncOp(v.slots[p].dev))
  {
    hide Inv, BlockRw, Addressable, Logical, Moved, DeviceBlock;
    match op
    case GetOp(k) =>
      GetSlots(v, k);
    case LookOp(_) =>
    case WriteOp(_, _, _) =>
    case PutOp(r, important) =>
      InUse(v, r);
      PutKeeps(v, r, important, robust);
    case SyncOp(dev) => FlushKeeps(v, (s: Slot) => s.dev == dev, 0);
    case TickOp =>
  }

  // ----- The modes -----

  /** A put in SLOPPY mode, an unimportant one in SANE mode, and a put by one of several holders in any
      mode only count: devices, superblocks, clock and error code stay, and the block as dirty as it was. */
  lemma {:induction false} PutLeavesDevice(w: Fs, p: nat, important: bool, robust: Robust)
    requires p < |w.slots|
    requires robust.Sloppy? || (robust.Sane? && !important) || w.slots[p].count != 1
    ensures var c := w.slots[p].count;
      Put(w, p, important, robust) ==
        w.(slots := w.slots[p := w.slots[p].(count := if c == 0 then 0xFF else c - 1)])
  {}

  /** The last put in PARANOID mode, and an important one in SANE mode, leaves the block clean and, if
      the driver has it, on its device; no other block's bytes on a device change. */
  lemma {:induction false} LastPutWrites(w: Fs, p: nat, important: bool, robust: Robust)
    requires Inv(w) && p < |w.slots| && w.slots[p].count == 1
    requires robust.Paranoid? || (robust.Sane? && important)
    ensures var s, w' := w.slots[p], Put(w, p, important, robust);
      var k := s.Key();
      && w'.slots == w.slots[p := s.(count := 0, dirty := false)] && w'.order == w.order
      && (!s.dirty || !Addressable(w.io, k) ==> DeviceMap(w'.io) == DeviceMap(w.io))
      && (s.dirty && Addressable(w.io, k) ==> DeviceMap(w'.io) == DeviceMap(w.io)[k := s.data])
      && (Addressable(w.io, k) ==> Addressable(w'.io, k) && DeviceBlock(w'.io, k) == s.data)
      && (!s.dirty ==> w'.io == w.io && w'.supers == w.supers && w'.clock == w.clock && w'.err == w.err)
  {
    var s := w.slots[p];
    var w1 := Set(w, p, s.(count := 0));
    assert Put(w, p, important, robust) == BlockRw(w1, p, false);
    InUse(w, p);
    CountKeeps(w, p, 0);
    WriteBackDevice(w1, p);
    WriteBackAt(w1, p, s.Key());
  }

  /** A put in a SLOPPY run changes no device, no superblock and nothing but a count. */
  lemma {:induction false} SloppyPutsWriteNothing(w: Fs, ops: seq<Op>, i: nat)
    requires Run(w, ops, Sloppy).Some? && i < |ops| && ops[i].PutOp?
    ensures Run(w, ops[..i], Sloppy).Some? && Run(w, ops[..i + 1], Sloppy).Some?
    ensures var v, v' := Run(w, ops[..i], Sloppy).value, Run(w, ops[..i + 1], Sloppy).value;
      v' == v.(slots := v'.slots) && |v'.slots| == |v.slots|
      && forall q :: 0 <= q < |v.slots| ==> v'.slots[q] == v.slots[q].(count := v'.slots[q].count)
  {
    if i == |ops| - 1 {
      assert ops[..i] == Init(ops) && ops[..i + 1] == ops;
      PutLeavesDevice(Previous(w, ops, Sloppy), ops[i].p, ops[i].important, Sloppy);
      hide Put;
    } else {
      assert Init(ops)[..i] == ops[..i] && Init(ops)[..i + 1] == ops[..i + 1];
      SloppyPutsWriteNothing(w, Init(ops), i);
    }
  }

  /** A request that may write a block out in SLOPPY mode: a sync, or a get that evicts one. */
  ghost predicate WritesOut(v: Fs, op: Op) {
    op.SyncOp? || (op.GetOp? && Cached(v.slots, op.key).None? && Victim(v).Some? && v.slots[Victim(v).value].dirty)
  }

  ghost predicate NothingWrittenOut(w: Fs, ops: seq<Op>)
    requires Run(w, ops, Sloppy).Some?
  {
    ops == [] || (NothingWrittenOut(w, Init(ops)) && !WritesOut(Previous(w, ops, Sloppy), Last(ops)))
  }

  lemma {:induction false} SloppyStep(v: Fs, op: Op)
    requires Inv(v) && Enabled(v, op) && Step(v, op, Sloppy).Some? && !WritesOut(v, op)
    ensures Step(v, op, Sloppy).value.io == v.io && Step(v, op, Sloppy).value.supers == v.supers
  {
    if op.GetOp? && Cached(v.slots, op.key).None? {
      GetSlots(v, op.key);
      RecacheState(v, Victim(v).value, op.key);
    }
  }

  /** SLOPPY mode, over runs: whatever is written and put, devices and superblocks stay as they were
      until a dirty block is evicted or a device is synced. */
  lemma {:induction false} SloppyRunWritesNothing(w: Fs, ops: seq<Op>)
    requires Inv(w) && Run(w, ops, Sloppy).Some? && NothingWrittenOut(w, ops)
    ensures Run(w, ops, Sloppy).value.io == w.io && Run(w, ops, Sloppy).value.supers == w.supers
  {
    if ops != [] {
      RunInv(w, Init(ops), Sloppy);
      SloppyRunWritesNothing(w, Init(ops));
      hide Inv, Step, WritesOut;
      SloppyStep(Previous(w, ops, Sloppy), Last(ops));
    }
  }

  /** No get of a run pushes a counter past its width. */
  ghost predicate NoOverflow(w: Fs, ops: seq<Op>, robust: Robust)
    requires Run(w, ops, robust).Some?
  {
    ops == [] || (NoOverflow(w, Init(ops), robust) && Counted(Previous(w, ops, robust), Last(ops)))
  }

  /** The put that ended the use of slot `p` last found it dirty and was one that does not write in this
      mode, and since then its device was not synced and it was not handed out. */
  ghost predicate LeftUnwritten(w: Fs, ops: seq<Op>, robust: Robust, p: nat)
    requires Run(w, ops, robust).Some? && p < |w.slots|
  {
    if ops == [] then Unwritten(w, p)
    else
      var v, op := Previous(w, ops, robust), Last(ops);
      if Ends(v, op, p) then v.slots[p].dirty && (robust.Sloppy? || (robust.Sane? && !op.important))
      else LeftUnwritten(w, Init(ops), robust, p) && !HandsOut(v, op, p) && !SyncsSlot(v, op, p)
  }

  predicate SyncsSlot(v: Fs, op: Op, p: nat) { p < |v.slots| && op == SyncOp(v.slots[p].dev) }

  /** After any run of block requests in any mode, a slot is unused and dirty if and only if it was left so. */
  lemma {:induction false} UnwrittenExactly(w: Fs, ops: seq<Op>, robust: Robust, p: nat)
    requires Inv(w) && p < |w.slots| && Run(w, ops, robust).Some? && NoOverflow(w, ops, robust)
    ensures Unwritten(Run(w, ops, robust).value, p) <==> LeftUnwritten(w, ops, robust, p)
  {
    if ops != [] {
      RunInv(w, Init(ops), robust);
      UnwrittenExactly(w, Init(ops), robust, p);
      hide Inv, Step, Enabled, Counted, Ends, HandsOut, Unwritten;
      StepUnwritten(Previous(w, ops, robust), Last(ops), robust, p);
    }
  }

  /** Where every unused slot is clean, a block that nobody holds is on its device as the logical disk
      has it; with nothing held the devices equal the logical disk. */
  lemma {:induction false} FreeCleanMeansOnDevice(v: Fs)
    requires Inv(v) && FreeClean(v)
    ensures forall k | Addressable(v.io, k) && !HeldBlock(v, k) :: LogicalAt(v, k) == DeviceBlock(v.io, k)
    ensures (forall p :: 0 <= p < |v.slots| ==> v.slots[p].count == 0) ==> Logical(v) == DeviceMap(v.io)
  {
    hide Addressable, DeviceBlock, LogicalAt, Inv;
    forall k | Addressable(v.io, k) && !HeldBlock(v, k) ensures LogicalAt(v, k) == DeviceBlock(v.io, k) {
      CleanMeansOnDevice(v, k);
    }
  }

  ghost predicate HeldBlock(v: Fs, k: Key) {
    exists p: nat :: Caches(v.slots, p, k) && v.slots[p].count > 0
  }

  /** While every unused slot is clean, as in PARANOID mode, evicting one sends nothing to a driver. */
  lemma {:induction false} EvictionWritesNothing(v: Fs, k: Key)
    requires Inv(v) && FreeClean(v) && ValidKey(k) && Get(v, k).Some?
    ensures Get(v, k).value.0.io == v.io && Get(v, k).value.0.supers == v.supers
  {
    GetSlots(v, k);
    if Cached(v.slots, k).None? {
      RecacheState(v, Victim(v).value, k);
    }
  }

  ghost predicate AllImportant(ops: seq<Op>) {
    forall i :: 0 <= i < |ops| && ops[i].PutOp? ==> ops[i].important
  }

  /** With important puts only, SANE mode is PARANOID mode, state by state. */
  lemma {:induction false} SaneIsParanoid(w: Fs, ops: seq<Op>)
    requires AllImportant(ops)
    ensures Run(w, ops, Sane) == Run(w, ops, Paranoid)
  {
    if ops != [] {
      SaneIsParanoid(w, Init(ops));
    }
  }

  // ----- Transfers that fail -----

  /** A write-back clears the dirty flag whether or not the driver served it: the bytes are on
      the device afterwards if and only if the block is one the driver has. */
  lemma {:induction false} WriteBackLost(w: Fs, p: nat)
    requires Inv(w) && p < |w.slots| && w.slots[p].dirty
    ensures var k, w' := w.slots[p].Key(), BlockRw(w, p, false);
      && !w'.slots[p].dirty
      && (Addressable(w.io, k) <==> Addressable(w'.io, k) && DeviceBlock(w'.io, k) == w.slots[p].data)
      && (!Addressable(w.io, k) ==> w'.io == w.io && w'.err in {ENXIO, EIO})
  {
    var k := w.slots[p].Key();
    WriteBackAt(w, p, k);
    DevWriteFrame(w.io, k, w.slots[p].data);
    TouchFrame(Set(w, p, w.slots[p].(dirty := false)), k.dev);
  }

  /** A write-back stamps the device's superblock, and it alone, with the next reading of the clock. */
  lemma {:induction false} WriteBackStamps(w: Fs, p: nat)
    requires Inv(w) && p < |w.slots| && w.slots[p].dirty
    ensures var i, w' := SuperGet(w.supers, w.slots[p].dev), BlockRw(w, p, false);
      && i.Some? && w'.supers == w.supers[i.value := w'.supers[i.value]] && w'.clock == w.clock.After()
      && var s, s' := w.supers[i.value], w'.supers[i.value];
         s'.WTime() == w.clock.Now() && s'.dirty && s'.Erased() == s.Erased()
  {
    var s := w.supers[SuperGet(w.supers, w.slots[p].dev).value];
    FieldReads(s.raw, S_WTIME, w.clock.Now());
    StampKeepsRest(s, w.clock.Now());
    hide Splice, U32, Bytes32, Addressable;
  }

  /** A get of an uncached block shows the device's bytes if the driver has the block, and
      otherwise the bytes the slot last had, marked clean. */
  lemma {:induction false} GetMissShows(w: Fs, k: Key)
    requires Inv(w) && ValidKey(k) && Cached(w.slots, k).None? && Get(w, k).Some?
    ensures var (w', p) := Get(w, k).value;
      && !w'.slots[p].dirty
      && w'.slots[p].data == if Addressable(w.io, k) then Logical(w)[k] else w.slots[p].data
  {
    GetSlots(w, k);
    GetKeeps(w, k);
    WriteBackAt(w, Victim(w).value, k);
  }

  /** The error a driver's answer leads to, for a block that it does not have. */
  function Refusal(io: Io, k: Key): nat
    requires |io.blockPid| == NUM_DRIVERS && DriverIndex(k.dev) < NUM_DRIVERS
  {
    var pid := io.blockPid[DriverIndex(k.dev)];
    if pid == NO_PID || Target(pid, Unit(k.dev)) !in io.images then ENXIO else EIO
  }

  /** A write-back records an error exactly if the driver does not have the block. */
  lemma {:induction false} WriteBackError(w: Fs, p: nat)
    requires Inv(w) && p < |w.slots|
    ensures w.slots[p].dirty ==> DriverIndex(w.slots[p].dev) < NUM_DRIVERS
    ensures BlockRw(w, p, false).err ==
      if w.slots[p].dirty && !Addressable(w.io, w.slots[p].Key()) then Refusal(w.io, w.slots[p].Key()) else w.err
    ensures var w' := BlockRw(w, p, false);
      w'.io.blockPid == w.io.blockPid && w'.io.images.Keys == w.io.images.Keys
  {
    if w.slots[p].dirty {
      var s := w.slots[p];
      assert s.dev != NO_DEV;
      TransferMeans(w.io, s.dev, BlockOff(s.blk), s.data);
      hide Major, Minor, DriverIndex, Unit, BlockOff, Splice;
    }
  }

  /** A get of an uncached block records the error of the read if the driver does not have the block,
      and otherwise that of the eviction, if that was refused. */
  lemma {:induction false} GetMissError(w: Fs, k: Key)
    requires Inv(w) && ValidKey(k) && Cached(w.slots, k).None? && Get(w, k).Some?
    ensures DriverIndex(k.dev) < NUM_DRIVERS
    ensures var (w', p) := Get(w, k).value;
      w'.err ==
        if !Addressable(w.io, k) then Refusal(w.io, k)
        else if w.slots[p].dirty && !Addressable(w.io, w.slots[p].Key()) then Refusal(w.io, w.slots[p].Key())
        else w.err
  {
    var p := Victim(w).value;
    NumberBytes(k.dev);
    WriteBackError(w, p);
    WriteBackAt(w, p, k);
    WriteBackKeeps(w, p);
    RefillError(BlockRw(w, p, false), p, k);
    hide BlockRw, Addressable, Inv, Major, Minor, DriverIndex, Unit;
  }

  lemma {:induction false} RefillError(w: Fs, p: nat, k: Key)
    requires p < |w.slots| && ValidKey(k) && |w.io.blockPid| == NUM_DRIVERS
    ensures DriverIndex(k.dev) < NUM_DRIVERS
    ensures BlockRw(Set(w, p, w.slots[p].(dev := k.dev, blk := k.blk, count := 1, dirty := true)), p, true).err ==
      if Addressable(w.io, k) then w.err else Refusal(w.io, k)
  {
    TransferMeans(w.io, k.dev, BlockOff(k.blk), w.slots[p].data);
    NumberBytes(k.dev);
    hide Major, Minor, DriverIndex, Unit, BlockOff, Splice, DevWrite;
  }

  /** What a client asks for who changes a block. */
  ghost function ChangeOps(w: Fs, k: Key, at: nat, bytes: seq<byte>): seq<Op>
    requires Get(w, k).Some?
  {
    [GetOp(k), WriteOp(Get(w, k).value.1, at, bytes), PutOp(Get(w, k).value.1, true)]
  }

  /** A block of a mounted device that the driver refuses, such as one past the end of the device: a
      get hands out the evicted bytes under its name, marked clean. A client may change it and put it
      back as important; outside SLOPPY mode it is clean then, and no device has changed by it. */
  lemma {:induction false} RefusedBlockLost(w: Fs, k: Key, at: nat, bytes: seq<byte>, robust: Robust)
    requires Inv(w) && ValidKey(k) && !Addressable(w.io, k) && SuperGet(w.supers, k.dev).Some?
    requires Cached(w.slots, k).None? && Get(w, k).Some? && at + |bytes| <= BLOCK_SIZE && !robust.Sloppy?
    ensures var (w1, p) := Get(w, k).value;
      w1.slots[p].Key() == k && !w1.slots[p].dirty && w1.slots[p].data == w.slots[p].data
    ensures var (w1, p) := Get(w, k).value;
      var run := Run(w, ChangeOps(w, k, at, bytes), robust);
      && run.Some? && |run.value.slots| == |w.slots| && run.value.io == w1.io && run.value.err in {ENXIO, EIO}
      && run.value.slots[p] == Slot(k.dev, k.blk, 0, false, Splice(w.slots[p].data, at, bytes))
  {
    hide Logical, Addressable, BlockRw, Recache, Moved, Inv;
    var (w1, p) := Get(w, k).value;
    var ops := ChangeOps(w, k, at, bytes);
    GetMissShows(w, k);
    GetSlots(w, k);
    GetKeeps(w, k);
    SameSlot(w.supers, w1.supers, k.dev);
    var w2 := Write(w1, p, at, bytes);
    WriteKeeps(w1, p, at, bytes);
    var w3 := Set(w2, p, w2.slots[p].(count := 0));
    CountKeeps(w2, p, 0);
    WriteBackLost(w3, p);
    WriteBackDevice(w3, p);
    PutKeeps(w2, p, true, robust);
    RunOne(w, [], ops[0], robust);
    RunOne(w, [] + [ops[0]], ops[1], robust);
    RunOne(w, [] + [ops[0]] + [ops[1]], ops[2], robust);
    assert [] + [ops[0]] + [ops[1]] + [ops[2]] == ops;
  }
}
