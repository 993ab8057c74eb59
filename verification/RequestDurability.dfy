/** What has reached the devices after any run of block and inode requests. */
module RequestDurability {
  import opened Config
  import opened Device
  import opened Cache
  import opened Runs
  import opened Durability
  import opened Inodes
  import opened InodeProofs
  import opened InodeDurability
  import opened InodeTable
  import opened Requests

  /** Outside SLOPPY mode a borrow leaves no block unwritten that was not before. */
  lemma {:induction false} BorrowUnwritten(
    w: Fs, k: Key, write: Option<(nat, seq<byte>)>, robust: Robust, q: nat)
    requires write.Some? ==> write.value.0 + |write.value.1| <= BLOCK_SIZE
    requires Inv(w) && ValidKey(k) && Borrow(w, k, write, robust).Some? && !robust.Sloppy?
    ensures Unwritten(Borrow(w, k, write, robust).value, q) ==> Unwritten(w, q)
  {
    var (w1, p) := Get(w, k).value;
    var w2 := if write.Some? then Write(w1, p, write.value.0, write.value.1) else w1;
    GotSlots(w, k);
    hide Get, Put, Inv;
    PutSlots(w2, p, robust);
    if w2.slots[p].count == 1 {
      PutCleans(w2, p, robust);
    }
  }

  lemma {:induction false} InodeRwUnwritten(w: Fs, i: Inode, read: bool, robust: Robust, q: nat)
    requires Inv(w) && ReadyIno(w, i.dev, i.ino) && !robust.Sloppy?
    requires Locatable(w, i.dev, i.ino) && InodeRw(w, i, read, robust).Some?
    ensures Unwritten(InodeRw(w, i, read, robust).value.0, q) ==> Unwritten(w, q)
  {
    ReadySize(w, i.dev);
    if i.dirty {
      var k1, k2, write := Key(i.dev, GROUP_BLOCK), InodeKey(w, i.dev, i.ino), InodeWrite(w, i, read);
      InodeRwBorrows(w, i, read, robust);
      GroupFindBorrows(w, i.dev, i.ino, robust);
      hide *;
      var w1 := Borrow(w, k1, None, robust).value;
      BorrowKeeps(w, k1, None, robust);
      BorrowUnwritten(w, k1, None, robust, q);
      BorrowUnwritten(w1, k2, write, robust, q);
    }
  }

  /** A client's put of slot `p` as its only holder. */
  ghost predicate EndsUse(v: TableState, r: Request, p: nat)
    requires Allowed(v, r)
  {
    r.BlockReq? && Ends(v.w, r.op, p)
  }

  /** No client's get pushes a counter past its width. */
  ghost predicate GetsCounted(s: TableState, reqs: seq<Request>, robust: Robust)
    requires Serve(s, reqs, robust).Some?
  {
    reqs == [] ||
    (GetsCounted(s, Init(reqs), robust) &&
     (Last(reqs).BlockReq? ==> Counted(Preceding(s, reqs, robust).w, Last(reqs).op)))
  }

  /** The client's put that ended the use of slot `p` last was called unimportant. */
  ghost predicate Careless(s: TableState, reqs: seq<Request>, robust: Robust, p: nat)
    requires Serve(s, reqs, robust).Some?
  {
    reqs != [] &&
    var v, r := Preceding(s, reqs, robust), Last(reqs);
    if EndsUse(v, r, p) then !r.op.important else Careless(s, Init(reqs), robust, p)
  }

  /** Outside SLOPPY mode, a request leaves a block unwritten only by a client's unimportant put. */
  lemma {:induction false} RequestUnwritten(v: TableState, r: Request, robust: Robust, p: nat)
    requires Inv(v.w) && Allowed(v, r) && Effect(v, r, robust).Some? && !robust.Sloppy?
    requires p < |v.w.slots| && (r.BlockReq? ==> Counted(v.w, r.op))
    ensures Unwritten(Effect(v, r, robust).value.w, p) ==>
      if EndsUse(v, r, p) then robust.Sane? && !r.op.important else Unwritten(v.w, p)
  {
    hide Inv, Step, Enabled, Effect, InodeRw, ReadyIno, Locatable, Borrow, KeepsAccessTime, Counted;
    EffectBelow(v, r, robust);
    if r.BlockReq? {
      StepUnwritten(v.w, r.op, robust, p);
    } else if r.FindReq? {
      GroupFindBorrows(v.w, r.dev, r.ino, robust);
      BorrowUnwritten(v.w, Key(r.dev, GROUP_BLOCK), None, robust, p);
    } else if ErrandOf(v, r).Some? {
      var e := ErrandOf(v, r).value;
      TickKeeps(v.w);
      InodeRwUnwritten(e.w, e.i, e.read, robust, p);
    }
  }

  /** SANE mode: after any run of block and inode requests, every unused dirty block owes it to a
      client's unimportant put. PARANOID mode: there is no unused dirty block. */
  lemma {:induction false} UnwrittenMeansCareless(s: TableState, reqs: seq<Request>, robust: Robust, p: nat)
    requires Inv(s.w) && FreeClean(s.w) && p < |s.w.slots| && !robust.Sloppy?
    requires Serve(s, reqs, robust).Some? && GetsCounted(s, reqs, robust)
    ensures Unwritten(Serve(s, reqs, robust).value.w, p) ==> robust.Sane? && Careless(s, reqs, robust, p)
  {
    if reqs != [] {
      var v := Preceding(s, reqs, robust);
      ServeKeeps(s, Init(reqs), robust);
      UnwrittenMeansCareless(s, Init(reqs), robust, p);
      hide Inv, Allowed, Effect, Serve, Counted, EndsUse;
      RequestUnwritten(v, Last(reqs), robust, p);
    }
  }

  /** PARANOID mode: after any run of block and inode requests a block that nobody holds is on its
      device as the logical disk has it, so with nothing held the devices equal the logical disk. */
  lemma {:induction false} ParanoidDurable(s: TableState, reqs: seq<Request>)
    requires Inv(s.w) && FreeClean(s.w) && Serve(s, reqs, Paranoid).Some? && GetsCounted(s, reqs, Paranoid)
    ensures var v := Serve(s, reqs, Paranoid).value.w;
      && FreeClean(v)
      && (forall k | Addressable(v.io, k) && !HeldBlock(v, k) :: LogicalAt(v, k) == DeviceBlock(v.io, k))
      && ((forall p :: 0 <= p < |v.slots| ==> v.slots[p].count == 0) ==> Logical(v) == DeviceMap(v.io))
  {
    hide Inv, Serve, Logical, LogicalAt, Addressable, DeviceBlock, DeviceMap, GetsCounted, HeldBlock, Careless;
    var v := Serve(s, reqs, Paranoid).value.w;
    ServeKeeps(s, reqs, Paranoid);
    forall p | 0 <= p < |v.slots| && v.slots[p].count == 0 ensures !v.slots[p].dirty {
      UnwrittenMeansCareless(s, reqs, Paranoid, p);
    }
    FreeCleanMeansOnDevice(v);
  }
}
