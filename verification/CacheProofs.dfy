/** What each cache operation keeps: the invariant, and the logical disk. */
module CacheProofs {
  import opened Config
  import opened Bytes
  import opened Device
  import opened Superblock
  import opened Ring
  import opened Cache

  // ----- Reading the logical disk -----

  lemma {:induction false} CachedIs(slots: seq<Slot>, k: Key, p: nat)
    requires Unique(slots) && k.dev != NO_DEV && Caches(slots, p, k)
    ensures Cached(slots, k) == Some(p)
  {
    assert slots[p].Key() == k;
  }

  /** Slots hold the same blocks as before. */
  ghost predicate SameNames(s1: seq<Slot>, s2: seq<Slot>) {
    |s1| == |s2| && forall p :: 0 <= p < |s1| ==> s1[p].Key() == s2[p].Key()
  }

  lemma {:induction false} CachedSame(s1: seq<Slot>, s2: seq<Slot>, k: Key)
    requires SameNames(s1, s2) && Unique(s1) && k.dev != NO_DEV
    ensures Cached(s1, k) == Cached(s2, k)
  {
    if Cached(s1, k).Some? {
      assert Caches(s2, Cached(s1, k).value, k);
    }
    if Cached(s2, k).Some? {
      CachedIs(s1, k, Cached(s2, k).value);
    }
  }

  /** Two states over devices of the same size have the same logical disk if they agree on every block. */
  lemma {:induction false} LogicalExtensional(w: Fs, w': Fs)
    requires forall k :: Addressable(w'.io, k) == Addressable(w.io, k)
    requires forall k :: Addressable(w.io, k) ==> LogicalAt(w', k) == LogicalAt(w, k)
    ensures Logical(w') == Logical(w)
  {}

  // ----- Transfers -----

  lemma {:induction false} TouchFrame(w: Fs, dev: Dev)
    ensures var w' := Touch(w, dev);
      && w' == w.(supers := w'.supers, clock := w'.clock)
      && SameButStamps(w.supers, w'.supers)
  {
    if SuperGet(w.supers, dev).Some? {
      var i := SuperGet(w.supers, dev).value;
      StampKeepsRest(w.supers[i], w.clock.Now());
    }
  }

  /** Changing one slot without renaming it keeps the rest of the table. */
  lemma {:induction false} SlotsFrame(slots: seq<Slot>, p: nat, s: Slot)
    requires p < |slots| && s.Key() == slots[p].Key() && SlotsOk(slots) && Unique(slots)
    requires s.dev == NO_DEV ==> s.count == 0 && !s.dirty
    ensures SlotsOk(slots[p := s]) && Unique(slots[p := s]) && SameNames(slots, slots[p := s])
  {}

  /** The device effect of a write-back. */
  lemma {:induction false} WriteBackDevice(w: Fs, p: nat)
    requires Inv(w) && p < |w.slots|
    ensures var s, w' := w.slots[p], BlockRw(w, p, false);
      && w'.slots == w.slots[p := s.(dirty := false)] && w'.order == w.order
      && SameButStamps(w.supers, w'.supers) && OneDriverPerMajor(w'.io)
      && DeviceMap(w'.io) ==
           if s.dirty && Addressable(w.io, s.Key()) then DeviceMap(w.io)[s.Key() := s.data] else DeviceMap(w.io)
  {
    var s := w.slots[p];
    if s.dirty {
      DevWriteFrame(w.io, s.Key(), s.data);
      hide Touch;
      var w1 := match DevWrite(w.io, s.dev, BlockOff(s.blk), s.data)
        case Done(io) => w.(io := io)
        case Failed(e) => w.(err := e);
      TouchFrame(Set(w1, p, s.(dirty := false)), s.dev);
    }
  }

  /** A write-back, seen from one block of the device. */
  lemma {:induction false} WriteBackAt(w: Fs, p: nat, k: Key)
    requires Inv(w) && p < |w.slots|
    ensures var s, w' := w.slots[p], BlockRw(w, p, false);
      && Addressable(w'.io, k) == Addressable(w.io, k)
      && (Addressable(w.io, k) ==>
            DeviceBlock(w'.io, k) == if s.dirty && k == s.Key() then s.data else DeviceBlock(w.io, k))
  {
    WriteBackDevice(w, p);
    var w' := BlockRw(w, p, false);
    hide BlockRw, Inv, Addressable, DeviceBlock;
    assert Addressable(w.io, k) <==> k in DeviceMap(w.io);
    assert Addressable(w'.io, k) <==> k in DeviceMap(w'.io);
  }

  lemma {:induction false} WriteBackInv(w: Fs, p: nat)
    requires Inv(w) && p < |w.slots|
    ensures Inv(BlockRw(w, p, false))
  {
    var s, w' := w.slots[p], BlockRw(w, p, false);
    WriteBackDevice(w, p);
    SlotsFrame(w.slots, p, s.(dirty := false));
    hide Addressable, DeviceBlock, BlockRw, Permutation, OneDriverPerMajor, SlotsOk;
    forall dev ensures SuperGet(w'.supers, dev) == SuperGet(w.supers, dev) {
      SameSlot(w.supers, w'.supers, dev);
    }
    forall q | 0 <= q < |w'.slots| && !w'.slots[q].dirty && Addressable(w'.io, w'.slots[q].Key())
      ensures w'.slots[q].data == DeviceBlock(w'.io, w'.slots[q].Key())
    {
      WriteBackAt(w, p, w.slots[q].Key());
    }
  }

  lemma {:induction false} WriteBackLogical(w: Fs, p: nat, k: Key)
    requires Inv(w) && p < |w.slots| && Addressable(w.io, k) && Addressable(BlockRw(w, p, false).io, k)
    ensures LogicalAt(BlockRw(w, p, false), k) == LogicalAt(w, k)
  {
    var w' := BlockRw(w, p, false);
    WriteBackDevice(w, p);
    WriteBackAt(w, p, k);
    hide BlockRw, DeviceBlock, DeviceMap;
    CachedSame(w.slots, w'.slots, k);
    assert Cached(w.slots, k).None? ==> !Caches(w.slots, p, k);
  }

  /** A write-back changes no block's logical contents, and keeps the invariant. */
  lemma {:induction false} WriteBackKeeps(w: Fs, p: nat)
    requires Inv(w) && p < |w.slots|
    ensures var w' := BlockRw(w, p, false);
      Inv(w') && Logical(w') == Logical(w) && forall k :: Addressable(w'.io, k) == Addressable(w.io, k)
  {
    hide *;
    var w' := BlockRw(w, p, false);
    WriteBackInv(w, p);
    forall k {
      WriteBackAt(w, p, k);
    }
    forall k | Addressable(w.io, k) {
      WriteBackLogical(w, p, k);
    }
    LogicalExtensional(w, w');
  }

  // ----- block_get -----

  /** The slot of a recached block holds what the device has, if the device has it. */
  function Refilled(w: Fs, p: nat, k: Key): Slot
    requires p < |w.slots|
  {
    Slot(k.dev, k.blk, 1, false, if Addressable(w.io, k) then DeviceBlock(w.io, k) else w.slots[p].data)
  }

  lemma {:induction false} RecacheState(w: Fs, p: nat, k: Key)
    requires p < |w.slots| && ValidKey(k)
    ensures var w1, w' := BlockRw(w, p, false), Recache(w, p, k);
      |w1.slots| == |w.slots| && w' == w1.(slots := w1.slots[p := Refilled(w1, p, k)], err := w'.err)
  {
    var w1 := BlockRw(w, p, false);
    assert |w1.slots| == |w.slots| && w1.slots[p].data == w.slots[p].data;
    hide Touch, DevWrite, BlockOff, ValidKey, DevCheck;
    var w2 := Set(w1, p, w1.slots[p].(dev := k.dev, blk := k.blk, count := 1, dirty := true));
    assert Recache(w, p, k) == BlockRw(w2, p, true);
  }

  /** Giving a clean slot to an uncached block. */
  lemma {:induction false} RefillSlots(w: Fs, p: nat, k: Key)
    requires Inv(w) && p < |w.slots| && !w.slots[p].dirty && ValidKey(k) && Cached(w.slots, k).None?
    ensures var slots := w.slots[p := Refilled(w, p, k)];
      SlotsOk(slots) && Unique(slots) && Coherent(slots, w.io) && DirtyMounted(w.(slots := slots))
  {
    hide DeviceBlock, Permutation, OneDriverPerMajor;
    forall q | 0 <= q < |w.slots| ensures w.slots[q].Key() != k {
      assert !Caches(w.slots, q, k);
    }
  }

  lemma {:induction false} RefillLogical(w: Fs, p: nat, k: Key, k2: Key)
    requires Inv(w) && p < |w.slots| && !w.slots[p].dirty && ValidKey(k) && Cached(w.slots, k).None?
    requires Addressable(w.io, k2)
    ensures LogicalAt(w.(slots := w.slots[p := Refilled(w, p, k)]), k2) == LogicalAt(w, k2)
  {
    var slots := w.slots[p := Refilled(w, p, k)];
    RefillSlots(w, p, k);
    if k2 == k {
      CachedIs(slots, k, p);
    } else {
      hide Coherent, DirtyMounted, SlotsOk, Permutation, DeviceBlock;
      assert forall q: nat :: q != p ==> (Caches(slots, q, k2) <==> Caches(w.slots, q, k2));
      assert !Caches(slots, p, k2);
      match Cached(w.slots, k2)
      case Some(q) =>
        if q == p {
          CachedIs(w.slots, k2, p);
          assert Coherent(w.slots, w.io);
          ClearedSlot(w, p);
        } else {
          CachedIs(slots, k2, q);
        }
      case None =>
    }
  }

  lemma {:induction false} ClearedSlot(w: Fs, p: nat)
    requires Coherent(w.slots, w.io) && p < |w.slots| && !w.slots[p].dirty && Addressable(w.io, w.slots[p].Key())
    ensures w.slots[p].data == DeviceBlock(w.io, w.slots[p].Key())
  {}

  /** Recaching a block changes no logical contents, and the slot now shows the block's. */
  lemma {:induction false} RecacheKeeps(w: Fs, p: nat, k: Key)
    requires Inv(w) && p < |w.slots| && ValidKey(k) && Cached(w.slots, k).None?
    ensures var w' := Recache(w, p, k);
      && Inv(w') && Logical(w') == Logical(w) && forall k2 :: Addressable(w'.io, k2) == Addressable(w.io, k2)
  {
    var w1 := BlockRw(w, p, false);
    var w2 := w1.(slots := w1.slots[p := Refilled(w1, p, k)]);
    RecacheState(w, p, k);
    WriteBackKeeps(w, p);
    WriteBackDevice(w, p);
    CachedSame(w.slots, w1.slots, k);
    assert !w1.slots[p].dirty;
    hide BlockRw, Refilled, Recache, Addressable, DeviceBlock, SlotsOk, Unique, Coherent, LogicalAt, Logical;
    RefillSlots(w1, p, k);
    forall k2 | Addressable(w1.io, k2) ensures LogicalAt(w2, k2) == LogicalAt(w1, k2) {
      RefillLogical(w1, p, k, k2);
    }
    LogicalExtensional(w1, w2);
    ErrIrrelevant(w2, Recache(w, p, k).err);
  }

  lemma {:induction false} ErrIrrelevant(w: Fs, e: nat)
    ensures Logical(w.(err := e)) == Logical(w) && (Inv(w) ==> Inv(w.(err := e)))
  {}

  lemma {:induction false} OrderIrrelevant(w: Fs, p: nat, most: bool)
    requires Inv(w)
    ensures var w' := w.(order := Moved(w.order, p, most));
      Inv(w') && Logical(w') == Logical(w)
  {
    MovedPermutation(w.order, |w.slots|, p, most);
  }

  /** Changing a slot's count, while its block stays, changes nothing that matters. */
  lemma {:induction false} CountKeeps(w: Fs, p: nat, c: byte)
    requires Inv(w) && p < |w.slots| && (w.slots[p].dev == NO_DEV ==> c == 0)
    ensures var w' := Set(w, p, w.slots[p].(count := c));
      Inv(w') && Logical(w') == Logical(w)
  {
    var s := w.slots[p].(count := c);
    var w' := Set(w, p, s);
    SlotsFrame(w.slots, p, s);
    hide Addressable, DeviceBlock, Permutation, OneDriverPerMajor, SlotsOk, ValidKey;
    forall k | Addressable(w.io, k) ensures LogicalAt(w', k) == LogicalAt(w, k) {
      NamedDevice(w.io, k);
      CachedSame(w.slots, w'.slots, k);
    }
    assert Inv(w');
  }

  lemma {:induction false} NamedDevice(io: Io, k: Key)
    requires Addressable(io, k)
    ensures k.dev != NO_DEV
  {}

  lemma {:induction false} VictimExists(w: Fs, i: nat)
    requires Permutation(w.order, |w.slots|) && i < |w.order| && w.slots[w.order[i]].count == 0
    ensures Victim(w).Some?
  {
    if j :| 0 <= j < i && w.slots[w.order[j]].count == 0 {
      VictimExists(w, j);
    } else {
      assert FirstFree(w.slots, w.order, i);
    }
  }

  /** block_get panics exactly when the block is not cached and every slot is in use. */
  lemma {:induction false} GetPanics(w: Fs, k: Key)
    requires Inv(w)
    ensures Get(w, k).None? <==>
      && (forall p: nat :: !Caches(w.slots, p, k))
      && (forall p :: 0 <= p < |w.slots| ==> w.slots[p].count > 0)
  {
    if p :| 0 <= p < |w.slots| && w.slots[p].count == 0 {
      Covers(w.order, |w.slots|, p);
      VictimExists(w, IndexOf(w.order, p));
    }
  }

  /** block_get leaves the logical disk alone, and hands out a slot that shows the block's
      logical contents. */
  lemma {:induction false} GetKeeps(w: Fs, k: Key)
    requires Inv(w) && ValidKey(k) && Get(w, k).Some?
    ensures var (w', p) := Get(w, k).value;
      && Inv(w') && Logical(w') == Logical(w) && (forall k2 :: Addressable(w'.io, k2) == Addressable(w.io, k2))
      && Caches(w'.slots, p, k)
      && (Addressable(w.io, k) ==> w'.slots[p].data == Logical(w)[k])
  {
    var (w', p) := Get(w, k).value;
    hide BlockRw, Inv, Moved, Addressable, DeviceBlock, LogicalAt;
    match Cached(w.slots, k) {
      case Some(_) =>
        CountKeeps(w, p, Inc8(w.slots[p].count)) by { assert Inv(w); }
        OrderIrrelevant(Set(w, p, w.slots[p].(count := Inc8(w.slots[p].count))), p, true);
      case None =>
        RecacheKeeps(w, p, k);
        OrderIrrelevant(Recache(w, p, k), p, true);
        RecacheState(w, p, k);
    }
    ShownBySlot(w', p, k);
  }

  lemma {:induction false} ShownBySlot(w: Fs, p: nat, k: Key)
    requires Inv(w) && ValidKey(k) && Caches(w.slots, p, k)
    ensures Addressable(w.io, k) ==> k in Logical(w) && Logical(w)[k] == w.slots[p].data
  {
    CachedIs(w.slots, k, p);
  }

  /** What block_get does to the table: one slot changes, and it is the one handed out. */
  lemma {:induction false} GetSlots(w: Fs, k: Key)
    requires Inv(w) && ValidKey(k) && Get(w, k).Some?
    ensures var (w', p) := Get(w, k).value;
      var s := w.slots[p];
      && w'.order == Moved(w.order, p, true) && SameButStamps(w.supers, w'.supers)
      && (if Cached(w.slots, k).Some? then
            Caches(w.slots, p, k) && w' == w.(slots := w.slots[p := s.(count := Inc8(s.count))], order := w'.order)
          else
            && s.count == 0 && Victim(w) == Some(p) && w'.io == BlockRw(w, p, false).io
            && w'.slots == w.slots[p := Refilled(BlockRw(w, p, false), p, k)])
  {
    if Cached(w.slots, k).None? {
      var p := Victim(w).value;
      RecacheState(w, p, k);
      WriteBackDevice(w, p);
      hide BlockRw, Recache, Refilled, Moved, Inv;
      var w1 := BlockRw(w, p, false);
      var r := Refilled(w1, p, k);
      assert w.slots[p := w.slots[p].(dirty := false)][p := r] == w.slots[p := r];
    }
  }

  // ----- block_put and holders' writes -----

  /** block_put leaves the logical disk alone, whatever the mode. Even a wrapped count comes back. */
  lemma {:induction false} PutKeeps(w: Fs, p: nat, important: bool, robust: Robust)
    requires Inv(w) && p < |w.slots| && w.slots[p].dev != NO_DEV
    ensures var s, w' := w.slots[p], Put(w, p, important, robust);
      && Inv(w') && Logical(w') == Logical(w) && (forall k :: Addressable(w'.io, k) == Addressable(w.io, k))
      && w'.order == w.order && SameButStamps(w.supers, w'.supers)
      && var wrote := s.count == 1 && (robust.Paranoid? || (robust.Sane? && important));
      w'.slots == w.slots[p := s.(count := Dec8(s.count), dirty := s.dirty && !wrote)]
  {
    var s := w.slots[p];
    var w1 := Set(w, p, s.(count := Dec8(s.count)));
    assert w1.slots[p] == s.(count := Dec8(s.count));
    assert s.count == 1 <==> Dec8(s.count) == 0;
    if s.count != 1 || !WritesBack(robust, important) {
      assert Put(w, p, important, robust) == w1;
      hide *;
      CountKeeps(w, p, Dec8(s.count));
      StampsReflexive(w.supers);
    } else {
      assert Put(w, p, important, robust) == BlockRw(w1, p, false);
      hide *;
      CountKeeps(w, p, Dec8(s.count));
      WriteBackKeeps(w1, p);
      WriteBackDevice(w1, p);
    }
  }

  lemma {:induction false} InUse(w: Fs, p: nat)
    requires Inv(w) && p < |w.slots| && w.slots[p].count > 0
    ensures w.slots[p].dev != NO_DEV && ValidKey(w.slots[p].Key()) && Dec8(w.slots[p].count) == w.slots[p].count - 1
  {}

  /** A holder's write changes the logical contents of the block held, and of no other. */
  lemma {:induction false} WriteKeeps(w: Fs, p: nat, at: nat, bytes: seq<byte>)
    requires Inv(w) && p < |w.slots| && at + |bytes| <= BLOCK_SIZE
    requires w.slots[p].dev != NO_DEV && SuperGet(w.supers, w.slots[p].dev).Some?
    ensures var s, w' := w.slots[p], Write(w, p, at, bytes);
      && Inv(w') && (Addressable(w.io, s.Key()) ==> s.Key() in Logical(w) && Logical(w)[s.Key()] == s.data)
      && Logical(w') ==
           if Addressable(w.io, s.Key()) then Logical(w)[s.Key() := Splice(s.data, at, bytes)] else Logical(w)
  {
    hide Addressable, DeviceBlock, Permutation, OneDriverPerMajor, SlotsOk, ValidKey, Splice;
    var s, w' := w.slots[p], Write(w, p, at, bytes);
    SlotsFrame(w.slots, p, w'.slots[p]);
    assert Inv(w');
    forall k | Addressable(w.io, k)
      ensures LogicalAt(w', k) == if k == s.Key() then w'.slots[p].data else LogicalAt(w, k)
      ensures k == s.Key() ==> LogicalAt(w, k) == s.data
    {
      NamedDevice(w.io, k);
      CachedSame(w.slots, w'.slots, k);
      if k == s.Key() {
        CachedIs(w.slots, k, p);
      }
    }
  }

  // ----- dev_sync and dev_purge -----

  /** `w'` is `w` after some write-backs: the logical disk is the same, and of the slots exactly
      those from `p` on that are of interest are clean. */
  ghost predicate Flushed(w: Fs, w': Fs, which: Slot -> bool, p: nat) {
    && Inv(w') && Logical(w') == Logical(w) && (forall k :: Addressable(w'.io, k) == Addressable(w.io, k))
    && w'.order == w.order && SameButStamps(w.supers, w'.supers) && |w'.slots| == |w.slots|
    && forall q :: 0 <= q < |w.slots| ==>
         w'.slots[q] == if q >= p && which(w.slots[q]) then w.slots[q].(dirty := false) else w.slots[q]
  }

  lemma {:induction false} FlushedNothing(w: Fs, which: Slot -> bool)
    requires Inv(w)
    ensures Flushed(w, w, which, |w.slots|)
  {
    hide Inv, Logical, Addressable;
  }

  lemma {:induction false} FlushExtended(w: Fs, w1: Fs, w': Fs, which: Slot -> bool, p: nat)
    requires p < |w.slots| && Flushed(w1, w', which, p + 1)
    requires Logical(w1) == Logical(w) && (forall k :: Addressable(w1.io, k) == Addressable(w.io, k))
    requires w1.order == w.order && SameButStamps(w.supers, w1.supers)
    requires w1.slots == if which(w.slots[p]) then w.slots[p := w.slots[p].(dirty := false)] else w.slots
    ensures Flushed(w, w', which, p)
  {
    hide Inv, Logical, Addressable, SameButStamps;
    StampsCompose(w.supers, w1.supers, w'.supers);
  }

  lemma {:induction false} FlushUnfolds(w: Fs, which: Slot -> bool, p: nat)
    requires p <= |w.slots|
    ensures FlushFrom(w, which, p) ==
      if p == |w.slots| then w else FlushFrom(if which(w.slots[p]) then BlockRw(w, p, false) else w, which, p + 1)
  {
    hide BlockRw;
  }

  /** Flushing leaves the logical disk alone and makes exactly the chosen slots clean. */
  lemma {:induction false} FlushKeeps(w: Fs, which: Slot -> bool, p: nat)
    requires Inv(w) && p <= |w.slots|
    ensures Flushed(w, FlushFrom(w, which, p), which, p)
    decreases |w.slots| - p
  {
    hide *;
    FlushUnfolds(w, which, p);
    if p == |w.slots| {
      FlushedNothing(w, which);
    } else {
      var w1 := if which(w.slots[p]) then BlockRw(w, p, false) else w;
      StampsReflexive(w.supers);
      WriteBackKeeps(w, p);
      WriteBackDevice(w, p);
      FlushKeeps(w1, which, p + 1);
      FlushExtended(w, w1, FlushFrom(w, which, p), which, p);
    }
  }

  /** Every block of a synced device is on the device, and its slots are clean; all other slots are as
      they were. */
  lemma {:induction false} SyncWrites(w: Fs, dev: Dev, k: Key)
    requires Inv(w) && Addressable(w.io, k)
    ensures var w' := DevSync(w, dev);
      && Addressable(w'.io, k) && k in Logical(w) && (k.dev == dev ==> DeviceBlock(w'.io, k) == Logical(w)[k])
      && |w'.slots| == |w.slots| && forall q :: 0 <= q < |w.slots| ==>
           w'.slots[q] == if w.slots[q].dev == dev then w.slots[q].(dirty := false) else w.slots[q]
  {
    var w' := DevSync(w, dev);
    FlushKeeps(w, (s: Slot) => s.dev == dev, 0);
    assert k in Logical(w) && k in Logical(w') && Logical(w')[k] == LogicalAt(w', k);
    if k.dev == dev {
      CleanMeansOnDevice(w', k);
    }
  }

  /** A block with no dirty copy is on the device as the logical disk has it. */
  lemma {:induction false} CleanMeansOnDevice(w: Fs, k: Key)
    requires Inv(w) && Addressable(w.io, k)
    requires forall p: nat :: Caches(w.slots, p, k) ==> !w.slots[p].dirty
    ensures LogicalAt(w, k) == DeviceBlock(w.io, k)
  {
    if p: nat :| Caches(w.slots, p, k) {
      CachedIs(w.slots, k, p);
      ClearedSlot(w, p);
    }
  }

  /** Purging a device forgets its unwritten changes and nothing else: its logical contents
      become those on the device. */
  lemma {:induction false} PurgeKeeps(w: Fs, dev: Dev, p: nat)
    requires Inv(w) && p <= |w.slots| && dev != NO_DEV
    requires forall q :: 0 <= q < p ==> w.slots[q].dev != dev
    ensures var w' := PurgeFrom(w, dev, p);
      && Inv(w') && w'.io == w.io && w'.supers == w.supers && w'.clock == w.clock && |w'.slots| == |w.slots|
      && (forall q :: 0 <= q < |w.slots| ==> w'.slots[q].dev != dev)
      && (forall q :: 0 <= q < |w.slots| && w.slots[q].dev != dev ==> w'.slots[q] == w.slots[q])
      && (forall k | Addressable(w.io, k) ::
            LogicalAt(w', k) == if k.dev == dev then DeviceBlock(w.io, k) else LogicalAt(w, k))
    decreases |w.slots| - p
  {
    if p == |w.slots| {
      assert forall k: Key, q: nat :: k.dev == dev ==> !Caches(w.slots, q, k);
    } else if w.slots[p].dev != dev {
      PurgeKeeps(w, dev, p + 1);
    } else {
      var w1 := PurgedSlot(w, p);
      PurgeOne(w, dev, p);
      hide Inv, Addressable, DeviceBlock;
      forall k | Addressable(w.io, k) && k.dev != dev ensures LogicalAt(w1, k) == LogicalAt(w, k) {
        PurgeOneLogical(w, p, k);
      }
      hide LogicalAt;
      PurgeKeeps(w1, dev, p + 1);
    }
  }

  ghost function PurgedSlot(w: Fs, p: nat): Fs
    requires p < |w.slots|
  {
    var s := w.slots[p].(dev := NO_DEV, blk := 0, count := 0, dirty := false);
    Set(w, p, s).(order := Moved(w.order, p, false))
  }

  lemma {:induction false} PurgeOne(w: Fs, dev: Dev, p: nat)
    requires Inv(w) && p < |w.slots|
    ensures Inv(PurgedSlot(w, p))
  {
    MovedPermutation(w.order, |w.slots|, p, false);
  }

  lemma {:induction false} PurgeOneLogical(w: Fs, p: nat, k: Key)
    requires Inv(w) && p < |w.slots| && Addressable(w.io, k) && w.slots[p].dev != k.dev
    ensures LogicalAt(PurgedSlot(w, p), k) == LogicalAt(w, k)
  {
    var w' := PurgedSlot(w, p);
    PurgeOne(w, k.dev, p);
    NamedDevice(w.io, k);
    hide SlotsOk, Coherent, DirtyMounted, DeviceBlock, Permutation, Addressable, OneDriverPerMajor;
    assert forall q: nat :: Caches(w'.slots, q, k) <==> Caches(w.slots, q, k);
    if Cached(w.slots, k).Some? {
      CachedIs(w'.slots, k, Cached(w.slots, k).value);
    }
  }

  /** The slot is one that a purge from slot `p` on empties. */
  predicate Purged(w: Fs, dev: Dev, p: nat, q: nat) { p <= q < |w.slots| && w.slots[q].dev == dev }

  /** A purge puts the slots that it empties before all others, as the next to be reused, the last one
      first; the others keep their order. */
  lemma {:induction false} PurgeOrder(w: Fs, dev: Dev, p: nat, a: nat, b: nat)
    requires Inv(w) && p <= |w.slots| && dev != NO_DEV && a < |w.slots| && b < |w.slots| && a != b
    requires forall q :: 0 <= q < p ==> w.slots[q].dev != dev
    ensures var order := PurgeFrom(w, dev, p).order;
      if Purged(w, dev, p, a) && Purged(w, dev, p, b) then Before(order, a, b) <==> a > b
      else if Purged(w, dev, p, a) || Purged(w, dev, p, b) then Before(order, a, b) <==> Purged(w, dev, p, a)
      else Before(order, a, b) <==> Before(w.order, a, b)
    decreases |w.slots| - p
  {
    if p < |w.slots| {
      var w1 := if w.slots[p].dev == dev then PurgedSlot(w, p) else w;
      PurgeOne(w, dev, p);
      assert forall q :: 0 <= q < |w.slots| && q != p ==> w1.slots[q] == w.slots[q];
      assert w1.slots[p].dev != dev && |w1.slots| == |w.slots|;
      assert PurgeFrom(w, dev, p) == PurgeFrom(w1, dev, p + 1);
      assert Permutation(w.order, |w.slots|);
      hide Inv, Before, Permutation, PurgeFrom;
      PurgeOrder(w1, dev, p + 1, a, b);
      if w.slots[p].dev == dev {
        FirstBefore(w.order, |w.slots|, p, a, b);
      }
    }
  }
}
