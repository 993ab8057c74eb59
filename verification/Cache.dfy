/** The block cache as a transition system over values: what each operation does to the slots,
    the ring order, the devices and the superblock table. */
module Cache {
  import opened Config
  import opened Bytes
  import opened Device
  import opened Superblock
  import opened Ring

  /** A cache slot, without its ring links. */
  datatype Slot = Slot(dev: Dev, blk: int, count: byte, dirty: bool, data: BlockData) {
    function Key(): Key { Device.Key(dev, blk) }
  }

  /** Everything below the inode table. `order` lists the slots from least to most recently used. */
  datatype Fs = Fs(
    slots: seq<Slot>, order: seq<nat>, io: Io, supers: seq<Super>, clock: Clock, err: nat)

  /** Replaces one slot. */
  function Set(w: Fs, p: nat, s: Slot): Fs
    requires p < |w.slots|
  {
    w.(slots := w.slots[p := s])
  }

  /** Stamps the superblock of a device that was written to. */
  function Touch(w: Fs, dev: Dev): (r: Fs)
    ensures |r.supers| == |w.supers|
  {
    match SuperGet(w.supers, dev)
    case None => w
    case Some(i) => w.(supers := w.supers[i := w.supers[i].Stamped(w.clock.Now())], clock := w.clock.After())
  }

  /** Moves a dirty slot's block to (or from) its device; a clean slot is left alone. The
      outcome of the transfer is ignored, except that it is recorded in the error code. */
  function BlockRw(w: Fs, p: nat, read: bool): (r: Fs)
    requires p < |w.slots|
    ensures |r.slots| == |w.slots| && |r.supers| == |w.supers|
  {
    var s := w.slots[p];
    if !s.dirty then w
    else if read then
      match DevRead(w.io, s.dev, BlockOff(s.blk), BLOCK_SIZE)
      case Done(buf) => Set(w, p, s.(data := buf, dirty := false))
      case Failed(e) => Set(w, p, s.(dirty := false)).(err := e)
    else
      var w1 := match DevWrite(w.io, s.dev, BlockOff(s.blk), s.data)
        case Done(io) => w.(io := io)
        case Failed(e) => w.(err := e);
      Touch(Set(w1, p, s.(dirty := false)), s.dev)
  }

  predicate Caches(slots: seq<Slot>, p: nat, k: Key) {
    p < |slots| && slots[p].Key() == k
  }

  ghost function Cached(slots: seq<Slot>, k: Key): (r: Option<nat>)
    ensures r.Some? ==> Caches(slots, r.value, k)
    ensures r.None? ==> forall p: nat :: !Caches(slots, p, k)
  {
    if p: nat :| Caches(slots, p, k) then Some(p) else None
  }

  /** The slot at index `i` of the order is the first one that nobody uses. */
  predicate FirstFree(slots: seq<Slot>, order: seq<nat>, i: nat) {
    && i < |order| && order[i] < |slots| && slots[order[i]].count == 0
    && forall j :: 0 <= j < i ==> order[j] < |slots| && slots[order[j]].count != 0
  }

  /** The least recently used slot that nobody uses. */
  ghost function Victim(w: Fs): (r: Option<nat>)
    ensures r.Some? ==> r.value < |w.slots| && w.slots[r.value].count == 0
  {
    if i: nat :| FirstFree(w.slots, w.order, i) then Some(w.order[i]) else None
  }

  /** Replaces the victim's block, written back if dirty, by block `k`. */
  function Recache(w: Fs, p: nat, k: Key): Fs
    requires p < |w.slots|
  {
    var w1 := BlockRw(w, p, false);
    var w2 := Set(w1, p, w1.slots[p].(dev := k.dev, blk := k.blk, count := 1, dirty := true));
    BlockRw(w2, p, true)
  }

  /** The new state and the slot of the block; None is a panic. */
  ghost function Get(w: Fs, k: Key): (r: Option<(Fs, nat)>)
    ensures r.Some? ==> r.value.1 < |w.slots| == |r.value.0.slots| && |r.value.0.supers| == |w.supers|
  {
    match Cached(w.slots, k)
    case Some(p) =>
      var w1 := Set(w, p, w.slots[p].(count := Inc8(w.slots[p].count)));
      Some((w1.(order := Moved(w.order, p, true)), p))
    case None =>
      match Victim(w)
      case None => None
      case Some(p) => Some((Recache(w, p, k).(order := Moved(w.order, p, true)), p))
  }

  /** Whether a put that leaves a block unused writes it back. */
  predicate WritesBack(robust: Robust, important: bool) {
    robust.Paranoid? || (robust.Sane? && important)
  }

  function Put(w: Fs, p: nat, important: bool, robust: Robust): (r: Fs)
    requires p < |w.slots|
    ensures |r.slots| == |w.slots| && |r.supers| == |w.supers|
  {
    var w1 := Set(w, p, w.slots[p].(count := Dec8(w.slots[p].count)));
    if w1.slots[p].count > 0 || !WritesBack(robust, important) then w1 else BlockRw(w1, p, false)
  }

  /** A holder changes bytes of a block and marks it dirty. */
  function Write(w: Fs, p: nat, at: nat, bytes: seq<byte>): Fs
    requires p < |w.slots| && at + |bytes| <= BLOCK_SIZE
  {
    Set(w, p, w.slots[p].(data := Splice(w.slots[p].data, at, bytes), dirty := true))
  }

  /** Writes back the slots from `p` on that are of interest. */
  function FlushFrom(w: Fs, which: Slot -> bool, p: nat): (r: Fs)
    requires p <= |w.slots|
    ensures |r.slots| == |w.slots|
    decreases |w.slots| - p
  {
    if p == |w.slots| then w
    else FlushFrom(if which(w.slots[p]) then BlockRw(w, p, false) else w, which, p + 1)
  }

  /** Writes all blocks of a device to it. */
  function DevSync(w: Fs, dev: Dev): Fs { FlushFrom(w, (s: Slot) => s.dev == dev, 0) }

  /** Forgets the slots from `p` on that hold blocks of `dev`, making them the next to be reused. */
  ghost function PurgeFrom(w: Fs, dev: Dev, p: nat): Fs
    requires p <= |w.slots|
    decreases |w.slots| - p
  {
    if p == |w.slots| then w
    else if w.slots[p].dev != dev then PurgeFrom(w, dev, p + 1)
    else
      var s := w.slots[p].(dev := NO_DEV, blk := 0, count := 0, dirty := false);
      PurgeFrom(Set(w, p, s).(order := Moved(w.order, p, false)), dev, p + 1)
  }

  ghost function DevPurge(w: Fs, dev: Dev): Fs { PurgeFrom(w, dev, 0) }

  /** The state after initialisation, over given devices. */
  ghost predicate Initial(w: Fs) {
    && |w.slots| > 0 && w.order == seq(|w.slots|, i => i)
    && (forall p :: 0 <= p < |w.slots| ==>
          var s := w.slots[p]; s.dev == NO_DEV && s.blk == 0 && s.count == 0 && !s.dirty)
    && OneDriverPerMajor(w.io)
  }

  // ----- The invariant -----

  /** Unused slots carry nothing; used ones carry an addressable block number. */
  ghost predicate SlotsOk(slots: seq<Slot>) {
    forall p :: 0 <= p < |slots| ==>
      if slots[p].dev == NO_DEV then slots[p].count == 0 && !slots[p].dirty else ValidKey(slots[p].Key())
  }

  /** At most one slot per block. */
  ghost predicate Unique(slots: seq<Slot>) {
    forall p, q :: 0 <= p < q < |slots| && slots[p].dev != NO_DEV ==> slots[p].Key() != slots[q].Key()
  }

  /** A clean slot equals its block on the device. */
  ghost predicate Coherent(slots: seq<Slot>, io: Io) {
    forall p :: 0 <= p < |slots| && !slots[p].dirty && Addressable(io, slots[p].Key())
      ==> slots[p].data == DeviceBlock(io, slots[p].Key())
  }

  /** Every dirty block is of a mounted device, so a write-back finds its superblock. */
  ghost predicate DirtyMounted(w: Fs) {
    forall p :: 0 <= p < |w.slots| && w.slots[p].dirty ==> SuperGet(w.supers, w.slots[p].dev).Some?
  }

  ghost predicate Inv(w: Fs) {
    && w.slots != [] && Permutation(w.order, |w.slots|) && OneDriverPerMajor(w.io)
    && SlotsOk(w.slots) && Unique(w.slots) && Coherent(w.slots, w.io) && DirtyMounted(w)
  }

  // ----- The abstraction -----

  ghost function LogicalAt(w: Fs, k: Key): BlockData
    requires Addressable(w.io, k)
  {
    match Cached(w.slots, k)
    case Some(p) => w.slots[p].data
    case None => DeviceBlock(w.io, k)
  }

  /** Cache and devices together, as a plain map from blocks to bytes. */
  ghost function Logical(w: Fs): imap<Key, BlockData> {
    imap k | Addressable(w.io, k) :: LogicalAt(w, k)
  }
}
