/** Runs of the block cache: any interleaving of gets, holders' reads and writes, puts and syncs. */
module Runs {
  import opened Config
  import opened Bytes
  import opened Device
  import opened Superblock
  import opened Cache
  import opened CacheProofs

  /** One request to the cache, or somebody's reading of the clock. Slots stand for the pointers
      that block_get hands out. */
  datatype Op =
    | GetOp(key: Key)
    | LookOp(p: nat)
    | WriteOp(p: nat, at: nat, bytes: seq<byte>)
    | PutOp(p: nat, important: bool)
    | SyncOp(dev: Dev)
    | TickOp

  /** What callers must respect: only holders look at, change and put a block, and only blocks
      of mounted devices are changed. */
  predicate Enabled(w: Fs, op: Op) {
    match op
    case GetOp(k) => ValidKey(k)
    case LookOp(p) => p < |w.slots| && w.slots[p].count > 0
    case WriteOp(p, at, bytes) =>
      && p < |w.slots| && w.slots[p].count > 0 && at + |bytes| <= BLOCK_SIZE
      && SuperGet(w.supers, w.slots[p].dev).Some?
    case PutOp(p, _) => p < |w.slots| && w.slots[p].count > 0
    case _ => true
  }

  /** The state after one request; None is a panic. */
  ghost function Step(w: Fs, op: Op, robust: Robust): Option<Fs>
    requires Enabled(w, op)
  {
    match op
    case GetOp(k) => if Get(w, k).Some? then Some(Get(w, k).value.0) else None
    case LookOp(p) => Some(w)
    case WriteOp(p, at, bytes) => Some(Write(w, p, at, bytes))
    case PutOp(p, important) => Some(Put(w, p, important, robust))
    case SyncOp(dev) => Some(DevSync(w, dev))
    case TickOp => Some(w.(clock := w.clock.After()))
  }

  function Init<T>(s: seq<T>): seq<T>
    requires s != []
  {
    s[..|s| - 1]
  }

  function Last<T>(s: seq<T>): T
    requires s != []
  {
    s[|s| - 1]
  }

  /** The state after a run; None if it panicked on the way or broke the rules. */
  ghost function Run(w: Fs, ops: seq<Op>, robust: Robust): Option<Fs> {
    if ops == [] then Some(w)
    else
      match Run(w, Init(ops), robust)
      case None => None
      case Some(v) => if Enabled(v, Last(ops)) then Step(v, Last(ops), robust) else None
  }

  /** The callers respect the rules all along. */
  ghost predicate Legal(w: Fs, ops: seq<Op>, robust: Robust) {
    ops == [] ||
    (Legal(w, Init(ops), robust) &&
     (Run(w, Init(ops), robust).Some? ==> Enabled(Run(w, Init(ops), robust).value, Last(ops))))
  }

  /** The state before the last request of a run that went through. */
  ghost function Previous(w: Fs, ops: seq<Op>, robust: Robust): (v: Fs)
    requires ops != [] && Run(w, ops, robust).Some?
    ensures Run(w, Init(ops), robust) == Some(v) && Enabled(v, Last(ops))
    ensures Step(v, Last(ops), robust) == Run(w, ops, robust)
  {
    Run(w, Init(ops), robust).value
  }

  /** One more request. */
  lemma {:induction false} RunOne(w: Fs, ops: seq<Op>, op: Op, robust: Robust)
    requires Run(w, ops, robust).Some? && Enabled(Run(w, ops, robust).value, op)
    ensures Run(w, ops + [op], robust) == Step(Run(w, ops, robust).value, op, robust)
  {
    assert Init(ops + [op]) == ops;
  }

  /** A run after a run is a run. */
  lemma {:induction false} RunsConcatenate(w: Fs, ops1: seq<Op>, ops2: seq<Op>, robust: Robust)
    requires Run(w, ops1, robust).Some?
    ensures Run(w, ops1 + ops2, robust) == Run(Run(w, ops1, robust).value, ops2, robust)
  {
    if ops2 == [] {
      assert ops1 + [] == ops1;
    } else {
      assert Init(ops1 + ops2) == ops1 + Init(ops2);
      RunsConcatenate(w, ops1, Init(ops2), robust);
    }
  }

  /** Reading the clock changes nothing that matters. */
  lemma {:induction false} TickKeeps(w: Fs)
    requires Inv(w)
    ensures var w' := w.(clock := w.clock.After()); Inv(w') && Logical(w') == Logical(w)
  {
    LogicalExtensional(w, w.(clock := w.clock.After()));
  }

  /** One request keeps the invariant, the device geometry and the superblocks' layout. */
  lemma {:induction false} StepKeeps(w: Fs, op: Op, robust: Robust)
    requires Inv(w) && Enabled(w, op) && Step(w, op, robust).Some?
    ensures var w' := Step(w, op, robust).value;
      && Inv(w') && |w'.slots| == |w.slots| && SameButStamps(w.supers, w'.supers)
      && forall k :: Addressable(w'.io, k) == Addressable(w.io, k)
  {
    hide Inv, Addressable, Logical, Caches, BlockRw;
    match op
    case GetOp(k) =>
      GetKeeps(w, k);
      GetSlots(w, k);
    case LookOp(p) =>
    case WriteOp(p, at, bytes) =>
      InUse(w, p);
      WriteKeeps(w, p, at, bytes);
    case PutOp(p, important) =>
      InUse(w, p);
      PutKeeps(w, p, important, robust);
    case SyncOp(dev) => FlushKeeps(w, (s: Slot) => s.dev == dev, 0);
    case TickOp => TickKeeps(w);
  }

  /** From block_init on, the invariant holds in every reachable state. */
  lemma {:induction false} RunKeeps(w: Fs, ops: seq<Op>, robust: Robust)
    requires Inv(w) && Run(w, ops, robust).Some?
    ensures var w' := Run(w, ops, robust).value;
      && Inv(w') && |w'.slots| == |w.slots| && SameButStamps(w.supers, w'.supers)
      && forall k :: Addressable(w'.io, k) == Addressable(w.io, k)
  {
    if ops != [] {
      var v := Previous(w, ops, robust);
      RunKeeps(w, Init(ops), robust);
      hide Inv, Addressable, Step, SameButStamps;
      StepKeeps(v, Last(ops), robust);
      StampsCompose(w.supers, v.supers, Run(w, ops, robust).value.supers);
    }
  }

  lemma {:induction false} InitialInv(w: Fs)
    requires Initial(w)
    ensures Inv(w) && Logical(w) == DeviceMap(w.io)
  {}

  /** The request at index `i` gets an uncached block while every slot is in use. */
  ghost predicate StuckAt(w: Fs, ops: seq<Op>, robust: Robust, i: nat) {
    && i < |ops| && ops[i].GetOp? && Run(w, ops[..i], robust).Some?
    && var v := Run(w, ops[..i], robust).value;
    && (forall p: nat :: !Caches(v.slots, p, ops[i].key))
    && (forall p :: 0 <= p < |v.slots| ==> v.slots[p].count > 0)
  }

  /** A run whose callers respect the rules panics only in such a get. */
  lemma {:induction false} RunPanics(w: Fs, ops: seq<Op>, robust: Robust)
    requires Inv(w) && Legal(w, ops, robust)
    ensures Run(w, ops, robust).None? ==> exists i: nat :: StuckAt(w, ops, robust, i)
  {
    if ops != [] {
      var n := |ops| - 1;
      assert ops[..n] == Init(ops);
      if Run(w, Init(ops), robust).None? {
        RunPanics(w, Init(ops), robust);
        var i: nat :| StuckAt(w, Init(ops), robust, i);
        assert Init(ops)[..i] == ops[..i];
        assert StuckAt(w, ops, robust, i);
      } else if Run(w, ops, robust).None? {
        RunKeeps(w, Init(ops), robust);
        GetPanics(Run(w, Init(ops), robust).value, ops[n].key);
        assert StuckAt(w, ops, robust, n);
      }
    }
  }

  // ----- The cache refines a plain disk -----

  /** What a request shows to, or does for, its caller. */
  datatype Event =
    | Saw(key: Key, data: BlockData)
    | Changed(key: Key, at: nat, bytes: seq<byte>)
    | Silent

  ghost function EventOf(v: Fs, op: Op): Event
    requires Enabled(v, op)
  {
    match op
    case GetOp(k) => if Get(v, k).Some? then Saw(k, var (v', p) := Get(v, k).value; v'.slots[p].data) else Silent
    case LookOp(p) => Saw(v.slots[p].Key(), v.slots[p].data)
    case WriteOp(p, at, bytes) => Changed(v.slots[p].Key(), at, bytes)
    case _ => Silent
  }

  ghost function Trace(w: Fs, ops: seq<Op>, robust: Robust): seq<Event>
    requires Run(w, ops, robust).Some?
  {
    if ops == [] then []
    else Trace(w, Init(ops), robust) + [EventOf(Previous(w, ops, robust), Last(ops))]
  }

  /** A plain disk after one more event. */
  ghost function Apply(d: imap<Key, BlockData>, e: Event): imap<Key, BlockData> {
    match e
    case Changed(k, at, bytes) =>
      if k in d && at + |bytes| <= BLOCK_SIZE then d[k := Splice(d[k], at, bytes)] else d
    case _ => d
  }

  /** A plain disk after the changes of a trace. */
  ghost function Replay(d: imap<Key, BlockData>, trace: seq<Event>): imap<Key, BlockData> {
    if trace == [] then d else Apply(Replay(d, Init(trace)), Last(trace))
  }

  /** What an event shows of a block is what the plain disk holds. */
  ghost predicate Shows(d: imap<Key, BlockData>, e: Event) {
    e.Saw? && e.key in d ==> d[e.key] == e.data
  }

  /** Everything a trace shows of a block is what the plain disk holds at that time. */
  ghost predicate Faithful(d: imap<Key, BlockData>, trace: seq<Event>) {
    trace == [] || (Faithful(d, Init(trace)) && Shows(Replay(d, Init(trace)), Last(trace)))
  }

  lemma {:induction false} TraceExtended(d: imap<Key, BlockData>, trace: seq<Event>, e: Event)
    ensures Replay(d, trace + [e]) == Apply(Replay(d, trace), e)
    ensures Faithful(d, trace + [e]) <==> Faithful(d, trace) && Shows(Replay(d, trace), e)
  {
    assert Init(trace + [e]) == trace;
  }

  /** One request, seen by its caller and by the logical disk. */
  lemma {:induction false} StepRefines(w: Fs, op: Op, robust: Robust)
    requires Inv(w) && Enabled(w, op) && Step(w, op, robust).Some?
    ensures var w', e := Step(w, op, robust).value, EventOf(w, op);
      Shows(Logical(w), e) && Logical(w') == Apply(Logical(w), e)
  {
    match op
    case GetOp(k) => GetKeeps(w, k);
    case LookOp(p) => ShownBySlot(w, p, w.slots[p].Key());
    case WriteOp(p, at, bytes) =>
      InUse(w, p);
      WriteKeeps(w, p, at, bytes);
    case PutOp(p, important) =>
      InUse(w, p);
      PutKeeps(w, p, important, robust);
    case SyncOp(dev) => FlushKeeps(w, (s: Slot) => s.dev == dev, 0);
    case TickOp => TickKeeps(w);
  }

  /** Over every run, in every mode, the cache and the devices behave like a plain map from
      blocks to bytes: callers see what that map holds, and only their writes change it. */
  lemma {:induction false} CacheRefinesPlainDisk(w: Fs, ops: seq<Op>, robust: Robust)
    requires Inv(w) && Run(w, ops, robust).Some?
    ensures Faithful(Logical(w), Trace(w, ops, robust))
    ensures Logical(Run(w, ops, robust).value) == Replay(Logical(w), Trace(w, ops, robust))
  {
    if ops != [] {
      var v := Previous(w, ops, robust);
      CacheRefinesPlainDisk(w, Init(ops), robust);
      RunKeeps(w, Init(ops), robust);
      StepRefines(v, Last(ops), robust);
      TraceExtended(Logical(w), Trace(w, Init(ops), robust), EventOf(v, Last(ops)));
      hide Step, EventOf, Inv, Logical, Replay, Faithful, Apply, Shows;
    }
  }
}
