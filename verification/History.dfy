/** What the slots of a reachable state owe to the requests so far: recency, references, and
    the bytes their holders wrote. */
module History {
  import opened Config
  import opened Bytes
  import opened Device
  import opened Ring
  import opened Cache
  import opened CacheProofs
  import opened Runs

  /** Whether the last request of a run was a get that handed out slot `p`. */
  ghost predicate LastGot(w: Fs, ops: seq<Op>, robust: Robust, p: nat)
    requires ops != [] && Run(w, ops, robust).Some?
  {
    Last(ops).GetOp? && Get(Previous(w, ops, robust), Last(ops).key).value.1 == p
  }

  // ----- Least recently used -----

  /** When slot `p` was last handed out, counting requests from 1; slots not handed out during the
      run come before that, in the order of the ring at its start. */
  ghost function LastGetTime(w: Fs, ops: seq<Op>, robust: Robust, p: nat): int
    requires Run(w, ops, robust).Some?
  {
    if ops == [] then (if p in w.order then IndexOf(w.order, p) - |w.order| else 0)
    else if LastGot(w, ops, robust, p) then |ops|
    else LastGetTime(w, Init(ops), robust, p)
  }

  lemma {:induction false} TimeBound(w: Fs, ops: seq<Op>, robust: Robust, p: nat)
    requires Run(w, ops, robust).Some?
    ensures LastGetTime(w, ops, robust, p) <= |ops|
  {
    if ops != [] && !LastGot(w, ops, robust, p) {
      TimeBound(w, Init(ops), robust, p);
    }
  }

  /** Right after block_init, that is slot order. */
  lemma {:induction false} InitialGetTime(w: Fs, robust: Robust, p: nat)
    requires Initial(w) && p < |w.slots|
    ensures LastGetTime(w, [], robust, p) == p - |w.slots|
  {
    assert w.order[p] == p;
  }

  /** In every state that any run leads to, the ring is ordered by the time of last get. */
  lemma {:induction false} RingSortedByLastGet(w: Fs, ops: seq<Op>, robust: Robust, p: nat, q: nat)
    requires Inv(w) && Run(w, ops, robust).Some? && p < |w.slots| && q < |w.slots| && p != q
    ensures Before(Run(w, ops, robust).value.order, p, q)
       <==> LastGetTime(w, ops, robust, p) < LastGetTime(w, ops, robust, q)
  {
    if ops == [] {
      Covers(w.order, |w.slots|, p);
      Covers(w.order, |w.slots|, q);
      BeforeAt(w.order, |w.slots|, IndexOf(w.order, p), IndexOf(w.order, q));
    } else {
      var v, op := Previous(w, ops, robust), Last(ops);
      RunKeeps(w, Init(ops), robust);
      RingSortedByLastGet(w, Init(ops), robust, p, q);
      TimeBound(w, Init(ops), robust, p);
      TimeBound(w, Init(ops), robust, q);
      var w' := Run(w, ops, robust).value;
      assert Permutation(v.order, |v.slots|);
      hide Inv, Before, Permutation;
      match op
      case GetOp(k) =>
        var r := Get(v, k).value.1;
        GetSlots(v, k);
        if r == q {
          MovedKeepsOthers(v.order, |v.slots|, q, true, q, p);
          OneWay(w'.order, |v.slots|, p, q) by { RunKeeps(w, ops, robust); assert Inv(w'); }
        } else {
          MovedKeepsOthers(v.order, |v.slots|, r, true, p, q);
        }
      case LookOp(_) =>
      case WriteOp(_, _, _) =>
      case PutOp(r, important) =>
        InUse(v, r);
        PutKeeps(v, r, important, robust);
      case SyncOp(dev) => FlushKeeps(v, (s: Slot) => s.dev == dev, 0);
      case TickOp =>
    }
  }

  /** A get of an uncached block reuses, among the slots in nobody's use, the one whose last
      get is the longest ago. */
  lemma {:induction false} VictimIsLeastRecentlyGot(w: Fs, ops: seq<Op>, robust: Robust, k: Key, q: nat)
    requires Inv(w) && Run(w, ops, robust).Some? && ValidKey(k)
    requires var v := Run(w, ops, robust).value;
      Cached(v.slots, k).None? && Get(v, k).Some? && q < |v.slots| && v.slots[q].count == 0
    ensures var v := Run(w, ops, robust).value;
      var p := Get(v, k).value.1;
      v.slots[p].count == 0 && (p == q || LastGetTime(w, ops, robust, p) < LastGetTime(w, ops, robust, q))
  {
    var v := Run(w, ops, robust).value;
    var p := Victim(v).value;
    RunKeeps(w, ops, robust);
    if p != q {
      Covers(v.order, |v.slots|, q);
      assert Permutation(v.order, |v.slots|);
      hide Inv, Before, LastGetTime, BlockRw, Addressable;
      var i: nat :| FirstFree(v.slots, v.order, i) && v.order[i] == p;
      BeforeAt(v.order, |v.slots|, i, IndexOf(v.order, q));
      RingSortedByLastGet(w, ops, robust, p, q);
    }
  }

  // ----- References -----

  /** The slot that a get hands out. */
  ghost predicate HandsOut(v: Fs, op: Op, p: nat) {
    op.GetOp? && Get(v, op.key).Some? && Get(v, op.key).value.1 == p
  }

  /** References to slot `p` that a request adds or gives back. */
  ghost function RefChange(v: Fs, op: Op, p: nat): int {
    if HandsOut(v, op, p) then 1 else if op.PutOp? && op.p == p then -1 else 0
  }

  /** A get that caches another block in slot `p` starts counting anew. */
  ghost predicate Recaches(v: Fs, op: Op, p: nat) {
    HandsOut(v, op, p) && Cached(v.slots, op.key).None?
  }

  /** Gets minus puts of slot `p` since its block was cached. */
  ghost function Balance(w: Fs, ops: seq<Op>, robust: Robust, p: nat): int
    requires Run(w, ops, robust).Some? && p < |w.slots|
  {
    if ops == [] then w.slots[p].count
    else
      var v, op := Previous(w, ops, robust), Last(ops);
      RefChange(v, op, p) + if Recaches(v, op, p) then 0 else Balance(w, Init(ops), robust, p)
  }

  /** A number of references, as an unsigned char shows it. */
  function Count8(n: int): byte { n % 0x100 }

  lemma {:induction false} CountWraps(r: int, b: int)
    ensures Count8(r + Count8(b)) == Count8(r + b)
  {}

  /** The effect of one request on one slot's count; only a slot nobody uses is recached. */
  lemma {:induction false} StepCount(v: Fs, op: Op, robust: Robust, p: nat)
    requires Inv(v) && Enabled(v, op) && Step(v, op, robust).Some? && p < |v.slots|
    ensures var v' := Step(v, op, robust).value;
      && |v'.slots| == |v.slots|
      && v'.slots[p].count == Count8(RefChange(v, op, p) + v.slots[p].count)
      && (Recaches(v, op, p) ==> v.slots[p].count == 0)
  {
    hide Inv, Addressable, Moved, BlockRw, Logical;
    match op
    case GetOp(k) => GetSlots(v, k);
    case LookOp(_) =>
    case WriteOp(_, _, _) =>
    case PutOp(r, important) =>
      InUse(v, r);
      PutKeeps(v, r, important, robust);
    case SyncOp(dev) => FlushKeeps(v, (s: Slot) => s.dev == dev, 0);
    case TickOp =>
  }

  /** The bytes of slot `p` after a request that does not recache it: only a write changes them. */
  function BytesAfter(data: BlockData, op: Op, p: nat): BlockData {
    if op.WriteOp? && op.p == p && op.at + |op.bytes| <= BLOCK_SIZE then Splice(data, op.at, op.bytes) else data
  }

  lemma {:induction false} StepBytes(v: Fs, op: Op, robust: Robust, p: nat)
    requires Inv(v) && Enabled(v, op) && Step(v, op, robust).Some? && p < |v.slots| && !Recaches(v, op, p)
    ensures var v' := Step(v, op, robust).value;
      && |v'.slots| == |v.slots|
      && v'.slots[p].Key() == v.slots[p].Key() && v'.slots[p].data == BytesAfter(v.slots[p].data, op, p)
  {
    hide Inv, Addressable, Moved, BlockRw, Logical;
    match op
    case GetOp(k) => GetSlots(v, k);
    case LookOp(_) =>
    case WriteOp(_, _, _) =>
    case PutOp(r, important) =>
      InUse(v, r);
      PutKeeps(v, r, important, robust);
    case SyncOp(dev) => FlushKeeps(v, (s: Slot) => s.dev == dev, 0);
    case TickOp =>
  }

  lemma {:induction false} RunInv(w: Fs, ops: seq<Op>, robust: Robust)
    requires Inv(w) && Run(w, ops, robust).Some?
    ensures Inv(Run(w, ops, robust).value) && |Run(w, ops, robust).value.slots| == |w.slots|
  {
    RunKeeps(w, ops, robust);
  }

  /** A slot's count is its balance of references, reduced to the width of the counter. */
  ghost predicate CountMatches(w: Fs, ops: seq<Op>, robust: Robust, p: nat)
    requires Run(w, ops, robust).Some? && p < |w.slots|
  {
    var v := Run(w, ops, robust).value;
    |v.slots| == |w.slots| && v.slots[p].count == Count8(Balance(w, ops, robust, p))
  }

  lemma {:induction false} NextCount(v: Fs, op: Op, robust: Robust, p: nat, b: int)
    requires Inv(v) && Enabled(v, op) && Step(v, op, robust).Some? && p < |v.slots| && v.slots[p].count == Count8(b)
    ensures var v' := Step(v, op, robust).value;
      && |v'.slots| == |v.slots|
      && v'.slots[p].count == Count8(RefChange(v, op, p) + if Recaches(v, op, p) then 0 else b)
  {
    hide *;
    StepCount(v, op, robust, p);
    CountWraps(RefChange(v, op, p), b);
  }

  lemma {:induction false} CountMatchesNext(w: Fs, ops: seq<Op>, robust: Robust, p: nat)
    requires Inv(w) && ops != [] && Run(w, ops, robust).Some? && p < |w.slots|
    requires CountMatches(w, Init(ops), robust, p)
    ensures CountMatches(w, ops, robust, p)
  {
    var v, op, b := Previous(w, ops, robust), Last(ops), Balance(w, Init(ops), robust, p);
    assert v.slots[p].count == Count8(b) && |v.slots| == |w.slots|;
    assert Balance(w, ops, robust, p) == RefChange(v, op, p) + if Recaches(v, op, p) then 0 else b;
    RunInv(w, Init(ops), robust);
    hide Run, Inv, Step, Enabled, RefChange, Recaches, Count8, Balance;
    NextCount(v, op, robust, p, b);
  }

  /** In every reachable state, each count is its balance of references modulo 256. */
  lemma {:induction false} CountIsBalance(w: Fs, ops: seq<Op>, robust: Robust, p: nat)
    requires Inv(w) && Run(w, ops, robust).Some? && p < |w.slots|
    ensures CountMatches(w, ops, robust, p)
  {
    if ops != [] {
      var v := Previous(w, ops, robust);
      hide CountMatches;
      CountIsBalance(w, Init(ops), robust, p);
      CountMatchesNext(w, ops, robust, p);
    }
  }

  /** Gets minus puts of slot `p` during a run. */
  ghost function NetRefs(w: Fs, ops: seq<Op>, robust: Robust, p: nat): int
    requires Run(w, ops, robust).Some?
  {
    if ops == [] then 0
    else NetRefs(w, Init(ops), robust, p) + RefChange(Previous(w, ops, robust), Last(ops), p)
  }

  /** A slot of which `n` references are held, showing block `k` with contents `data`. */
  ghost predicate Holds(v: Fs, p: nat, k: Key, n: int, data: BlockData) {
    p < |v.slots| && v.slots[p].Key() == k && v.slots[p].count == n && v.slots[p].data == data
  }

  lemma {:induction false} NextHeld(v: Fs, op: Op, robust: Robust, p: nat, k: Key, n: int, data: BlockData)
    requires Inv(v) && Enabled(v, op) && Step(v, op, robust).Some? && Holds(v, p, k, n, data)
    requires 0 < n && 0 <= n + RefChange(v, op, p) <= 0xFF
    ensures Holds(Step(v, op, robust).value, p, k, n + RefChange(v, op, p), BytesAfter(data, op, p))
  {
    hide Inv, Enabled, Step, RefChange, Recaches, BytesAfter;
    StepCount(v, op, robust, p);
    StepBytes(v, op, robust, p);
  }

  /** The counter is too narrow for 256 holders: getting a block that 255 hold leaves it with
      none, and it may be evicted. Any fewer holders, and it stays in use. */
  lemma {:induction false} GetOverflows(v: Fs, k: Key)
    requires Inv(v) && ValidKey(k) && Get(v, k).Some?
    ensures var (v', p) := Get(v, k).value;
      v'.slots[p].count == 0 <==> Cached(v.slots, k).Some? && v.slots[p].count == 0xFF
  {
    GetSlots(v, k);
  }
}
