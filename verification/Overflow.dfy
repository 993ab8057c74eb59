/** Which slot a get evicts, in terms of the requests so far, and how the narrow reference counter
    lets it be one in use. */
module Overflow {
  import opened Config
  import opened Device
  import opened Ring
  import opened Cache
  import opened CacheProofs
  import opened Runs
  import opened History

  /** The references to slot `p` are a multiple of what the counter can hold. */
  ghost predicate SeemsUnused(w: Fs, ops: seq<Op>, robust: Robust, p: nat)
    requires Run(w, ops, robust).Some? && p < |w.slots|
  {
    Balance(w, ops, robust, p) % 0x100 == 0
  }

  /** Slot `p` seems unused, and no other such slot was last got longer ago. */
  ghost predicate FirstToGo(w: Fs, ops: seq<Op>, robust: Robust, p: nat)
    requires Run(w, ops, robust).Some? && p < |w.slots|
  {
    SeemsUnused(w, ops, robust, p) &&
    forall q: nat :: q < |w.slots| && q != p && SeemsUnused(w, ops, robust, q)
      ==> LastGetTime(w, ops, robust, p) < LastGetTime(w, ops, robust, q)
  }

  lemma {:induction false} SeemsUnusedIs(w: Fs, ops: seq<Op>, robust: Robust, p: nat)
    requires Inv(w) && Run(w, ops, robust).Some? && p < |w.slots|
    ensures var v := Run(w, ops, robust).value;
      |v.slots| == |w.slots| && Inv(v) && (SeemsUnused(w, ops, robust, p) <==> v.slots[p].count == 0)
  {
    CountIsBalance(w, ops, robust, p);
    RunInv(w, ops, robust);
    hide Run, Inv, Balance;
  }

  /** A get of an uncached block evicts slot `p` exactly if the references to `p` are a multiple
      of 256 (none, or an overflow) and no other such slot was last got longer ago. */
  lemma {:induction false} EvictedExactly(w: Fs, ops: seq<Op>, robust: Robust, k: Key, p: nat)
    requires Inv(w) && Run(w, ops, robust).Some? && ValidKey(k) && p < |w.slots|
    requires Cached(Run(w, ops, robust).value.slots, k).None?
    ensures HandsOut(Run(w, ops, robust).value, GetOp(k), p) <==> FirstToGo(w, ops, robust, p)
  {
    var v := Run(w, ops, robust).value;
    SeemsUnusedIs(w, ops, robust, p);
    GetPanics(v, k);
    hide Run, Inv, SeemsUnused, LastGetTime, BlockRw;
    if Get(v, k).Some? {
      var r := Get(v, k).value.1;
      SeemsUnusedIs(w, ops, robust, r);
      forall q: nat | q < |w.slots| && q != r && SeemsUnused(w, ops, robust, q)
        ensures LastGetTime(w, ops, robust, r) < LastGetTime(w, ops, robust, q)
      {
        SeemsUnusedIs(w, ops, robust, q);
        VictimIsLeastRecentlyGot(w, ops, robust, k, q);
      }
      assert r == p || !FirstToGo(w, ops, robust, p);
    }
  }

  // ----- A block that is evicted under its holders -----

  function GetMany(k: Key, times: nat): seq<Op> { seq(times, _ => GetOp(k)) }

  function GetEach(keys: seq<Key>): seq<Op> { seq(|keys|, i requires 0 <= i < |keys| => GetOp(keys[i])) }

  /** The slots below `n`, cyclically from `start` on. */
  function Cycle(n: nat, start: nat): seq<nat>
    requires start <= n
  {
    seq(n, i requires 0 <= i < n => if i + start < n then i + start else i + start - n)
  }

  /** Slot 0 shows `k` and counts `c`; the next slots were handed out for `others`, in that order;
      the rest is as block_init left it. */
  ghost predicate Crowded(v: Fs, n: nat, k: Key, c: nat, others: seq<Key>) {
    && |others| < n == |v.slots| && v.order == Cycle(n, |others| + 1) && Inv(v)
    && v.slots[0].Key() == k && v.slots[0].count == c
    && (forall q :: 0 < q <= |others| ==> v.slots[q].Key() == others[q - 1] && v.slots[q].count == 1)
    && (forall q :: |others| < q < n ==> v.slots[q].dev == NO_DEV && v.slots[q].count == 0)
  }

  lemma {:induction false} FirstMoves(n: nat, start: nat)
    requires start < n
    ensures Moved(Cycle(n, start), Cycle(n, start)[0], true) == Cycle(n, start + 1)
  {
    var order := Cycle(n, start);
    assert IndexOf(order, order[0]) == 0;
    assert MovedFrom(order, 0, true) == Cycle(n, start + 1);
  }

  lemma {:induction false} LastStays(n: nat, start: nat)
    requires 0 < start <= n
    ensures Moved(Cycle(n, start), start - 1, true) == Cycle(n, start)
  {
    var order := Cycle(n, start);
    assert order[n - 1] == start - 1 && IndexOf(order, start - 1) == n - 1;
    assert MovedFrom(order, n - 1, true) == order;
  }

  /** A get of an uncached block takes over the slot at the least recently used end, if unused. */
  lemma {:induction false} GetTakesFirst(v: Fs, k: Key)
    requires Inv(v) && ValidKey(k) && Cached(v.slots, k).None?
    requires v.order[0] < |v.slots| && v.slots[v.order[0]].count == 0
    ensures Get(v, k).Some?
    ensures var (v', p) := Get(v, k).value;
      && p == v.order[0] && Inv(v') && v'.order == Moved(v.order, p, true)
      && |v'.slots| == |v.slots| && v'.slots == v.slots[p := v'.slots[p]]
      && v'.slots[p].Key() == k && v'.slots[p].count == 1
  {
    GetPanics(v, k);
    assert FirstFree(v.slots, v.order, 0);
    GetKeeps(v, k);
    GetSlots(v, k);
  }

  lemma {:induction false} NotCached(v: Fs, k: Key)
    requires forall q :: 0 <= q < |v.slots| ==> v.slots[q].Key() != k
    ensures Cached(v.slots, k).None?
  {
    assert forall q: nat :: !Caches(v.slots, q, k);
  }

  lemma {:induction false} FirstGet(w: Fs, k: Key)
    requires Initial(w) && ValidKey(k)
    ensures Get(w, k).Some?
    ensures var (v, p) := Get(w, k).value; p == 0 && Crowded(v, |w.slots|, k, 1, [])
  {
    InitialInv(w);
    NotCached(w, k);
    assert w.order == Cycle(|w.slots|, 0);
    FirstMoves(|w.slots|, 0);
    GetTakesFirst(w, k);
  }

  lemma {:induction false} GetAgain(v: Fs, n: nat, k: Key, c: nat)
    requires Crowded(v, n, k, c, []) && ValidKey(k)
    ensures Get(v, k).Some?
    ensures var (v', p) := Get(v, k).value; p == 0 && Crowded(v', n, k, (c + 1) % 0x100, [])
  {
    assert Caches(v.slots, 0, k);
    CachedIs(v.slots, k, 0);
    GetKeeps(v, k);
    GetSlots(v, k);
    LastStays(n, 1);
  }

  /** Gets of one block on a cache just initialised. */
  lemma {:induction false} ManyGets(w: Fs, k: Key, times: nat, robust: Robust)
    requires Initial(w) && ValidKey(k) && times > 0
    ensures var run := Run(w, GetMany(k, times), robust);
      && run.Some? && Crowded(run.value, |w.slots|, k, times % 0x100, [])
      && NetRefs(w, GetMany(k, times), robust, 0) == times
  {
    hide Initial, Crowded, Get;
    var ops := GetMany(k, times);
    assert Init(ops) == GetMany(k, times - 1) && Last(ops) == GetOp(k);
    if times == 1 {
      assert Init(ops) == [];
      FirstGet(w, k);
    } else {
      ManyGets(w, k, times - 1, robust);
      OneMore(times - 1);
      GetAgain(Run(w, Init(ops), robust).value, |w.slots|, k, (times - 1) % 0x100);
    }
  }

  lemma {:induction false} OneMore(times: nat)
    ensures (times % 0x100 + 1) % 0x100 == (times + 1) % 0x100
  {}

  lemma {:induction false} GetNext(v: Fs, n: nat, k: Key, others: seq<Key>, k2: Key)
    requires Crowded(v, n, k, 0, others) && ValidKey(k2) && k2 != k && k2 !in others
    ensures Get(v, k2).Some?
    ensures var (v', p) := Get(v, k2).value;
      if |others| + 1 < n then Crowded(v', n, k, 0, others + [k2]) else p == 0 && v'.slots[0].Key() == k2
  {
    forall q | 0 <= q < n ensures v.slots[q].Key() != k2 {
      assert 0 < q <= |others| ==> others[q - 1] in others;
    }
    NotCached(v, k2);
    GetTakesFirst(v, k2);
    if |others| + 1 < n {
      FirstMoves(n, |others| + 1);
    }
  }

  /** Gets of distinct other blocks. */
  lemma {:induction false} EachGet(v: Fs, n: nat, k: Key, others: seq<Key>, robust: Robust)
    requires Crowded(v, n, k, 0, []) && |others| <= n && k !in others
    requires forall i :: 0 <= i < |others| ==> ValidKey(others[i])
    requires forall i, j :: 0 <= i < j < |others| ==> others[i] != others[j]
    ensures var run := Run(v, GetEach(others), robust);
      run.Some? &&
        if |others| < n then Crowded(run.value, n, k, 0, others) else run.value.slots[0].Key() == others[n - 1]
  {
    if others == [] {
      assert GetEach(others) == [];
    } else {
      var ops, rest, last := GetEach(others), others[..|others| - 1], others[|others| - 1];
      assert Init(ops) == GetEach(rest) && Last(ops) == GetOp(last) && others == rest + [last];
      EachGet(v, n, k, rest, robust);
      hide Crowded, Get;
      GetNext(Run(v, Init(ops), robust).value, n, k, rest, last);
    }
  }

  /** From initialisation on, with any number of slots and in every mode: 256 gets of one block,
      and no put, leave it evictable. Gets of as many other blocks as there are slots then go
      through, and the last of them is handed the slot that 256 references are outstanding for. */
  lemma {:induction false} OverflowEvictsHeld(w: Fs, k: Key, others: seq<Key>, robust: Robust)
    requires Initial(w) && ValidKey(k) && |others| == |w.slots| && k !in others
    requires forall i :: 0 <= i < |others| ==> ValidKey(others[i])
    requires forall i, j :: 0 <= i < j < |others| ==> others[i] != others[j]
    ensures var held, stolen := GetMany(k, 0x100), GetMany(k, 0x100) + GetEach(others);
      && Run(w, held, robust).Some? && NetRefs(w, held, robust, 0) == 0x100
      && |Run(w, held, robust).value.slots| == |w.slots| && Run(w, held, robust).value.slots[0].Key() == k
      && Run(w, stolen, robust).Some? && |Run(w, stolen, robust).value.slots| == |w.slots|
      && Run(w, stolen, robust).value.slots[0].Key() == others[|others| - 1] != k
  {
    ManyGets(w, k, 0x100, robust);
    var v := Run(w, GetMany(k, 0x100), robust).value;
    EachGet(v, |w.slots|, k, others, robust);
    RunsConcatenate(w, GetMany(k, 0x100), GetEach(others), robust);
    InitialInv(w);
    RunInv(w, GetMany(k, 0x100) + GetEach(others), robust);
  }
}
