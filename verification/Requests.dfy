/** Runs of everything that clients ask of the buffer layer: block requests, group_find, inode_rw,
    inode_get, holders' changes and inode_put, in any order. */
module Requests {
  import opened Config
  import opened Bytes
  import opened Device
  import opened Superblock
  import opened Cache
  import opened Runs
  import opened History
  import opened Inodes
  import opened InodeProofs
  import opened InodeRuns
  import opened InodeTable
  import opened TableSteps

  /** One request. Slots stand for the pointers that block_get and inode_get hand out. */
  datatype Request =
    | BlockReq(op: Op)
    | FindReq(dev: Dev, ino: u32)
    | RwReq(slot: nat, read: bool)
    | GetReq(dev: Dev, ino: u32)
    | ChangeReq(slot: nat, at: nat, bytes: seq<byte>)
    | PutReq(slot: nat)

  /** The inode is one that a well-formed, mounted device has. */
  ghost predicate Usable(w: Fs, dev: Dev, ino: u32) {
    dev != NO_DEV && ReadyIno(w, dev, ino) && Locatable(w, dev, ino)
  }

  /** Inodes are of mounted devices, no inode's counter overflows, and only holders change and put
      records and blocks. */
  ghost predicate Allowed(s: TableState, r: Request) {
    match r
    case BlockReq(op) => Enabled(s.w, op)
    case FindReq(dev, ino) => Usable(s.w, dev, ino)
    case RwReq(n, _) => n < |s.t| && (s.t[n].dirty ==> Usable(s.w, s.t[n].dev, s.t[n].ino))
    case GetReq(dev, ino) =>
      Usable(s.w, dev, ino) && (Find(s.t, dev, ino).Some? ==> s.t[Find(s.t, dev, ino).value].count < 0xFF)
    case ChangeReq(n, at, bytes) => n < |s.t| && s.t[n].count > 0 && at + |bytes| <= INODE_BYTES
    case PutReq(n) => n < |s.t| && s.t[n].count > 0 && Usable(s.w, s.t[n].dev, s.t[n].ino)
  }

  /** The state after a request; None is a panic. */
  ghost function Effect(s: TableState, r: Request, robust: Robust): Option<TableState>
    requires Allowed(s, r)
  {
    match r
    case BlockReq(op) =>
      (match Step(s.w, op, robust)
       case None => None
       case Some(w') => Some(s.(w := w')))
    case FindReq(dev, ino) =>
      (match GroupFind(s.w, dev, ino, robust)
       case None => None
       case Some((w', _)) => Some(s.(w := w')))
    case RwReq(n, read) =>
      (match InodeRw(s.w, s.t[n], read, robust)
       case None => None
       case Some((w', i)) => Some(TableState(w', s.t[n := i])))
    case GetReq(dev, ino) =>
      (match InodeGet(s.w, s.t, dev, ino, robust)
       case None => None
       case Some((w', t', n)) => Some(TableState(w', t')))
    case ChangeReq(n, at, bytes) => Some(s.(t := s.t[n := TableSteps.Changed(s.t[n], at, bytes)]))
    case PutReq(n) =>
      match InodePut(s.w, s.t, n, robust)
      case None => None
      case Some((w', t')) => Some(TableState(w', t'))
  }

  /** The state after a run of requests; None if it panicked on the way or broke the rules. */
  ghost function Serve(s: TableState, reqs: seq<Request>, robust: Robust): Option<TableState> {
    if reqs == [] then Some(s)
    else
      match Serve(s, Init(reqs), robust)
      case None => None
      case Some(v) => if Allowed(v, Last(reqs)) then Effect(v, Last(reqs), robust) else None
  }

  /** The state before the last request of a run that went through. */
  ghost function Preceding(s: TableState, reqs: seq<Request>, robust: Robust): (v: TableState)
    requires reqs != [] && Serve(s, reqs, robust).Some?
    ensures Serve(s, Init(reqs), robust) == Some(v) && Allowed(v, Last(reqs))
    ensures Effect(v, Last(reqs), robust) == Serve(s, reqs, robust)
  {
    Serve(s, Init(reqs), robust).value
  }

  // ----- What a request does below the inode table -----

  /** A call of inode_rw that a request leads to: the state below at that time, and the record. */
  datatype Errand = Errand(w: Fs, i: Inode, read: bool)

  /** The call of inode_rw that a request leads to, unless there is none or nothing to transfer. */
  ghost function ErrandOf(s: TableState, r: Request): (e: Option<Errand>)
    requires Allowed(s, r)
    ensures e.Some? ==> Usable(e.value.w, e.value.i.dev, e.value.i.ino)
    ensures e.Some? ==> e.value.w == s.w || e.value.w == s.w.(clock := s.w.clock.After())
  {
    match r
    case RwReq(n, read) => if s.t[n].dirty then Some(Errand(s.w, s.t[n], read)) else None
    case GetReq(dev, ino) =>
      if Find(s.t, dev, ino).None? && FindFree(s.t).Some?
      then Some(Errand(s.w, Fresh(s.t[FindFree(s.t).value], dev, ino), true)) else None
    case PutReq(n) =>
      if s.t[n].count == 1 then
        TickUsable(s.w, s.t[n]);
        Some(Errand(LastPutClock(s.w, s.t[n]), LastPut(s.w, s.t[n]), false))
      else None
    case _ => None
  }

  lemma {:induction false} TickUsable(w: Fs, i: Inode)
    requires Usable(w, i.dev, i.ino)
    ensures Usable(LastPutClock(w, i), LastPut(w, i).dev, LastPut(w, i).ino)
  {
    TickIrrelevant(w, i.dev, i.ino);
    hide ReadyIno, Visible, Logical, KeepsAccessTime;
  }

  /** The state below the table after a request: a block request, a borrowed group block, a call of
      inode_rw, or nothing at all. */
  ghost function Below(s: TableState, r: Request, robust: Robust): Option<Fs>
    requires Allowed(s, r)
  {
    if r.BlockReq? then Step(s.w, r.op, robust)
    else if r.FindReq? then Borrow(s.w, Key(r.dev, GROUP_BLOCK), None, robust)
    else
      match ErrandOf(s, r)
      case None => Some(s.w)
      case Some(e) =>
        match InodeRw(e.w, e.i, e.read, robust)
        case None => None
        case Some((w', _)) => Some(w')
  }

  lemma {:induction false} EffectBelow(s: TableState, r: Request, robust: Robust)
    requires Inv(s.w) && Allowed(s, r) && Effect(s, r, robust).Some?
    ensures Below(s, r, robust) == Some(Effect(s, r, robust).value.w)
  {
    hide Inv, Step, GroupFind, InodeRw, ReadyIno, Locatable, Borrow, KeepsAccessTime;
    match r
    case FindReq(dev, ino) => GroupFindBorrows(s.w, dev, ino, robust);
    case RwReq(n, read) =>
      if !s.t[n].dirty {
        CleanInodeRw(s.w, s.t[n], read, robust);
      }
    case _ =>
  }

  /** One request keeps the cache sound and the superblocks' layout. */
  lemma {:induction false} RequestKeeps(s: TableState, r: Request, robust: Robust)
    requires Inv(s.w) && Allowed(s, r) && Effect(s, r, robust).Some?
    ensures var w' := Effect(s, r, robust).value.w;
      Inv(w') && |w'.slots| == |s.w.slots| && SameButStamps(s.w.supers, w'.supers)
  {
    EffectBelow(s, r, robust);
    hide Inv, Step, Effect, InodeRw, ReadyIno, Locatable, Borrow, KeepsAccessTime, SameButStamps;
    StampsReflexive(s.w.supers);
    if r.BlockReq? {
      StepKeeps(s.w, r.op, robust);
    } else if r.FindReq? {
      GroupFindBorrows(s.w, r.dev, r.ino, robust);
      UsableParts(s.w, r.dev, r.ino);
      BorrowKeeps(s.w, Key(r.dev, GROUP_BLOCK), None, robust);
      BorrowNetZero(s.w, Key(r.dev, GROUP_BLOCK), None, robust);
    } else if ErrandOf(s, r).Some? {
      var e := ErrandOf(s, r).value;
      TickKeeps(s.w);
      InodeRwKeeps(e.w, e.i, e.read, robust);
    }
  }

  lemma {:induction false} UsableParts(w: Fs, dev: Dev, ino: u32)
    requires Usable(w, dev, ino)
    ensures SuperGet(w.supers, dev).Some? && GeoOf(w, dev).inodeSize <= INODE_BYTES && ReadyIno(w, dev, ino)
  {
    ReadyInoSize(w, dev, ino);
  }

  /** Any run of requests keeps the cache sound. */
  lemma {:induction false} ServeKeeps(s: TableState, reqs: seq<Request>, robust: Robust)
    requires Inv(s.w) && Serve(s, reqs, robust).Some?
    ensures var w' := Serve(s, reqs, robust).value.w;
      Inv(w') && |w'.slots| == |s.w.slots| && SameButStamps(s.w.supers, w'.supers)
  {
    StampsReflexive(s.w.supers);
    if reqs != [] {
      var v := Preceding(s, reqs, robust);
      ServeKeeps(s, Init(reqs), robust);
      hide Inv, Allowed, Effect, SameButStamps;
      RequestKeeps(v, Last(reqs), robust);
      StampsCompose(s.w.supers, v.w.supers, Serve(s, reqs, robust).value.w.supers);
    }
  }

  // ----- Held blocks -----

  /** References to slot `p` that clients add or give back. What group_find, inode_rw, inode_get and
      inode_put borrow, they return. */
  ghost function Refs(v: TableState, r: Request, p: nat): int
    requires Allowed(v, r)
  {
    if r.BlockReq? then RefChange(v.w, r.op, p) else 0
  }

  /** The bytes of a block after a request, if its slot keeps it: a client's write changes them, or
      the inode that inode_rw writes out to it. */
  ghost function BytesAfterRequest(v: TableState, r: Request, p: nat, k: Key, data: BlockData): BlockData
    requires Allowed(v, r)
  {
    if r.BlockReq? then BytesAfter(data, r.op, p)
    else
      match ErrandOf(v, r)
      case None => data
      case Some(e) => BytesAfterErrand(e, k, data)
  }

  /** Clients' gets minus puts of slot `p` during a run. */
  ghost function NetHeld(s: TableState, reqs: seq<Request>, robust: Robust, p: nat): int
    requires Serve(s, reqs, robust).Some?
  {
    if reqs == [] then 0
    else NetHeld(s, Init(reqs), robust, p) + Refs(Preceding(s, reqs, robust), Last(reqs), p)
  }

  /** The bytes of the block in slot `p` after all that was written to it, and nothing else. */
  ghost function WrittenBytes(s: TableState, reqs: seq<Request>, robust: Robust, p: nat): BlockData
    requires Serve(s, reqs, robust).Some? && p < |s.w.slots|
  {
    if reqs == [] then s.w.slots[p].data
    else
      var v, k := Preceding(s, reqs, robust), s.w.slots[p].Key();
      BytesAfterRequest(v, Last(reqs), p, k, WrittenBytes(s, Init(reqs), robust, p))
  }

  /** Nobody puts slot `p` more often than they got it during the run, and the counter, which
      starts at `c`, does not overflow by clients' gets. */
  ghost predicate Respected(s: TableState, reqs: seq<Request>, robust: Robust, p: nat, c: nat)
    requires Serve(s, reqs, robust).Some?
  {
    && 0 <= NetHeld(s, reqs, robust, p) && c + NetHeld(s, reqs, robust, p) <= 0xFF
    && (reqs == [] || Respected(s, Init(reqs), robust, p, c))
  }

  lemma {:induction false} FindHolds(
    w: Fs, dev: Dev, ino: u32, robust: Robust, p: nat, k: Key, n: int, data: BlockData)
    requires Inv(w) && Usable(w, dev, ino) && Borrow(w, Key(dev, GROUP_BLOCK), None, robust).Some?
    requires Holds(w, p, k, n, data) && 0 < n
    ensures Holds(Borrow(w, Key(dev, GROUP_BLOCK), None, robust).value, p, k, n, data)
  {
    hide Inv, ReadyIno, Locatable, Borrow, NetZero;
    GroupFindBorrows(w, dev, ino, robust);
    BorrowNetZero(w, Key(dev, GROUP_BLOCK), None, robust);
    BorrowBytes(w, Key(dev, GROUP_BLOCK), None, robust, p);
    NetZeroAt(w, Borrow(w, Key(dev, GROUP_BLOCK), None, robust).value, p);
  }

  /** The bytes of block `k` after a call of inode_rw. */
  ghost function BytesAfterErrand(e: Errand, k: Key, data: BlockData): BlockData
    requires Usable(e.w, e.i.dev, e.i.ino)
  {
    ReadyInoSize(e.w, e.i.dev, e.i.ino);
    var write := InodeWrite(e.w, e.i, e.read);
    if e.i.dirty && write.Some? && InodeKey(e.w, e.i.dev, e.i.ino) == k
    then Splice(data, write.value.0, write.value.1) else data
  }

  lemma {:induction false} ErrandHolds(e: Errand, robust: Robust, p: nat, k: Key, n: int, data: BlockData)
    requires Inv(e.w) && Usable(e.w, e.i.dev, e.i.ino) && InodeRw(e.w, e.i, e.read, robust).Some?
    requires Holds(e.w, p, k, n, data) && 0 < n
    ensures Holds(InodeRw(e.w, e.i, e.read, robust).value.0, p, k, n, BytesAfterErrand(e, k, data))
  {
    hide Inv, InodeRw, ReadyIno, Locatable, NetZero, InodeKey, InodeWrite, Splice;
    UsableParts(e.w, e.i.dev, e.i.ino);
    InodeRwKeeps(e.w, e.i, e.read, robust);
    InodeRwBytes(e.w, e.i, e.read, robust, p);
    NetZeroAt(e.w, InodeRw(e.w, e.i, e.read, robust).value.0, p);
  }

  lemma {:induction false} RequestHolds(
    v: TableState, r: Request, robust: Robust, p: nat, k: Key, n: int, data: BlockData)
    requires Inv(v.w) && Allowed(v, r) && Effect(v, r, robust).Some? && Holds(v.w, p, k, n, data)
    requires 0 < n && 0 <= n + Refs(v, r, p) <= 0xFF
    ensures Holds(Effect(v, r, robust).value.w, p, k, n + Refs(v, r, p), BytesAfterRequest(v, r, p, k, data))
  {
    hide Inv, Step, Enabled, Effect, InodeRw, Usable, Borrow, KeepsAccessTime, RefChange, BytesAfter, BytesAfterErrand;
    EffectBelow(v, r, robust);
    if r.BlockReq? {
      NextHeld(v.w, r.op, robust, p, k, n, data);
    } else if r.FindReq? {
      FindHolds(v.w, r.dev, r.ino, robust, p, k, n, data);
    } else if ErrandOf(v, r).Some? {
      TickKeeps(v.w);
      ErrandHolds(ErrandOf(v, r).value, robust, p, k, n, data);
    }
  }

  /** What slot `p` is at the end of a run. */
  ghost predicate StillHeld(s: TableState, reqs: seq<Request>, robust: Robust, p: nat)
    requires Serve(s, reqs, robust).Some? && p < |s.w.slots|
  {
    Holds(Serve(s, reqs, robust).value.w, p, s.w.slots[p].Key(),
          s.w.slots[p].count + NetHeld(s, reqs, robust, p), WrittenBytes(s, reqs, robust, p))
  }

  lemma {:induction false} StillHeldNext(s: TableState, reqs: seq<Request>, robust: Robust, p: nat)
    requires Inv(s.w) && reqs != [] && Serve(s, reqs, robust).Some? && p < |s.w.slots| && s.w.slots[p].count > 0
    requires StillHeld(s, Init(reqs), robust, p) && Respected(s, reqs, robust, p, s.w.slots[p].count)
    ensures StillHeld(s, reqs, robust, p)
  {
    hide Inv, Allowed, Effect, Refs, BytesAfterRequest, Holds;
    var v, slot, net := Preceding(s, reqs, robust), s.w.slots[p], NetHeld(s, Init(reqs), robust, p);
    ServeKeeps(s, Init(reqs), robust);
    RequestHolds(v, Last(reqs), robust, p, slot.Key(), slot.count + net, WrittenBytes(s, Init(reqs), robust, p));
  }

  /** A slot in use at the start is never given to another block while its users keep their
      references, whatever is requested of blocks and inodes: its block stays, its count is exact,
      and its bytes change only by what is written to that block. */
  lemma {:induction false} HeldNeverStolen(s: TableState, reqs: seq<Request>, robust: Robust, p: nat)
    requires Inv(s.w) && Serve(s, reqs, robust).Some? && p < |s.w.slots| && s.w.slots[p].count > 0
    requires Respected(s, reqs, robust, p, s.w.slots[p].count)
    ensures StillHeld(s, reqs, robust, p)
  {
    if reqs != [] {
      var v := Preceding(s, reqs, robust);
      hide StillHeld;
      HeldNeverStolen(s, Init(reqs), robust, p);
      StillHeldNext(s, reqs, robust, p);
    }
  }

  // ----- Read over write -----

  /** A request does not write to the inode's bytes, by way of its block or as that inode, nor
      relocate inode tables. */
  ghost predicate SparesInode(v: TableState, r: Request, dev: Dev, ino: u32)
    requires Allowed(v, r) && ReadyIno(v.w, dev, ino)
  {
    if r.BlockReq? then
      Spares(v.w, r.op, dev, PlaceOf(Logical(v.w), GeoOf(v.w, dev), dev, ino), GeoOf(v.w, dev).inodeSize)
    else
      match ErrandOf(v, r)
      case None => true
      case Some(e) => e.i.dirty && !e.read ==> (e.i.dev, e.i.ino) != (dev, ino)
  }

  /** A run that goes through, all of whose requests spare the inode. */
  ghost predicate SparingRun(s: TableState, reqs: seq<Request>, robust: Robust, dev: Dev, ino: u32) {
    Serve(s, reqs, robust).Some? &&
    (reqs == [] ||
     (SparingRun(s, Init(reqs), robust, dev, ino) &&
      var v := Preceding(s, reqs, robust);
      ReadyIno(v.w, dev, ino) && SparesInode(v, Last(reqs), dev, ino)))
  }

  /** One request that spares an inode. */
  lemma {:induction false} RequestSpares(v: TableState, r: Request, robust: Robust, dev: Dev, ino: u32)
    requires Inv(v.w) && Allowed(v, r) && Effect(v, r, robust).Some?
    requires ReadyIno(v.w, dev, ino) && SparesInode(v, r, dev, ino)
    ensures SameInode(v.w, Effect(v, r, robust).value.w, dev, ino)
  {
    hide Inv, Step, Enabled, Effect, InodeRw, ReadyIno, Locatable, Borrow, KeepsAccessTime, PlaceOf, SameInode, Visible;
    EffectBelow(v, r, robust);
    if r.BlockReq? {
      StepSpares(v.w, r.op, robust, dev, ino);
    } else if r.FindReq? {
      GroupFindBorrows(v.w, r.dev, r.ino, robust);
      UsableParts(v.w, r.dev, r.ino);
      BorrowKeeps(v.w, Key(r.dev, GROUP_BLOCK), None, robust);
      SameDiskSameInode(v.w, Effect(v, r, robust).value.w, dev, ino);
    } else {
      StampsReflexive(v.w.supers);
      SameDiskSameInode(v.w, v.w, dev, ino);
      if ErrandOf(v, r).Some? {
        var e := ErrandOf(v, r).value;
        TickKeeps(v.w);
        SameDiskSameInode(v.w, e.w, dev, ino);
        SameInodeComposes(v.w, e.w, e.w, dev, ino);
        InodeRwSpares(e.w, e.i, e.read, robust, dev, ino);
        SameInodeComposes(v.w, e.w, Effect(v, r, robust).value.w, dev, ino);
      }
    }
  }

  lemma {:induction false} SameInodeComposes(w: Fs, w1: Fs, w2: Fs, dev: Dev, ino: u32)
    requires SameInode(w, w1, dev, ino)
    ensures ReadyIno(w1, dev, ino) && (SameInode(w1, w2, dev, ino) ==> SameInode(w, w2, dev, ino))
  {
    hide ReadyIno, PlaceOf, Visible, InodeKey, Logical;
  }

  /** A run that spares an inode leaves it where it is and as it looks. */
  lemma {:induction false} RunSparesInode(s: TableState, reqs: seq<Request>, robust: Robust, dev: Dev, ino: u32)
    requires Inv(s.w) && ReadyIno(s.w, dev, ino)
    ensures SparingRun(s, reqs, robust, dev, ino) ==> SameInode(s.w, Serve(s, reqs, robust).value.w, dev, ino)
  {
    if SparingRun(s, reqs, robust, dev, ino) {
      if reqs == [] {
        hide *;
        StampsReflexive(s.w.supers);
        SameDiskSameInode(s.w, s.w, dev, ino);
      } else {
        var v := Preceding(s, reqs, robust);
        RunSparesInode(s, Init(reqs), robust, dev, ino);
        ServeKeeps(s, Init(reqs), robust);
        hide Inv, Allowed, Effect, SparesInode, SameInode, ReadyIno;
        RequestSpares(v, Last(reqs), robust, dev, ino);
        SameInodeComposes(s.w, v.w, Serve(s, reqs, robust).value.w, dev, ino);
      }
    }
  }

  /** An inode written by inode_rw is read back the same after any run of block and inode requests
      that does not write over it, with all the evictions they cause. */
  lemma {:induction false} InodeReadOverWrite(
    w: Fs, a: Inode, t: seq<Inode>, reqs: seq<Request>, b: Inode, robust: Robust)
    requires Inv(w) && ReadyIno(w, a.dev, a.ino) && a.dirty && b.dev == a.dev && b.ino == a.ino && b.dirty
    ensures Locatable(w, a.dev, a.ino) && GeoOf(w, a.dev).inodeSize <= INODE_BYTES
    ensures
      var wrote, size := InodeRw(w, a, false, robust), GeoOf(w, a.dev).inodeSize;
      wrote.Some? && SparingRun(TableState(wrote.value.0, t), reqs, robust, a.dev, a.ino) ==>
        var w2 := Serve(TableState(wrote.value.0, t), reqs, robust).value.w;
        && Locatable(w2, b.dev, b.ino)
        && (InodeRw(w2, b, true, robust).Some? ==> InodeRw(w2, b, true, robust).value.1.raw[..size] == a.raw[..size])
  {
    InodeRwKeeps(w, a, false, robust);
    if InodeRw(w, a, false, robust).Some? {
      hide Inv, InodeRw, Serve, Visible, Locatable, ReadyIno, PlaceOf, InodeKey, SparingRun;
      WriteShows(w, a, robust, a.dev, a.ino);
      var s := TableState(InodeRw(w, a, false, robust).value.0, t);
      if SparingRun(s, reqs, robust, a.dev, a.ino) {
        assert Serve(s, reqs, robust).Some? by { SparingServes(s, reqs, robust, a.dev, a.ino); }
        RunSparesInode(s, reqs, robust, a.dev, a.ino);
        ServeKeeps(s, reqs, robust);
        ReadGives(Serve(s, reqs, robust).value.w, b, robust);
      }
    }
  }

  lemma {:induction false} SparingServes(s: TableState, reqs: seq<Request>, robust: Robust, dev: Dev, ino: u32)
    requires SparingRun(s, reqs, robust, dev, ino)
    ensures Serve(s, reqs, robust).Some?
  {}

  // ----- What users of inodes see -----

  /** The record that a request leaves for its inode, if it gives the inode new contents. */
  ghost function NewRecord(v: TableState, r: Request): Option<Inode>
    requires Allowed(v, r)
  {
    match r
    case RwReq(n, true) =>
      if v.t[n].dirty then
        ReadyInoSize(v.w, v.t[n].dev, v.t[n].ino);
        Some(Loaded(v.t[n], Visible(v.w, v.t[n].dev, v.t[n].ino)))
      else None
    case ChangeReq(n, at, bytes) => Some(TableSteps.Changed(v.t[n], at, bytes))
    case PutReq(n) => if v.t[n].count == 1 then Some(LastPut(v.w, v.t[n])) else None
    case _ => None
  }

  /** A block request writes to no inode; what is written to inodes goes through the inode table. */
  ghost predicate SparesInodes(v: TableState, r: Request)
    requires Allowed(v, r)
  {
    r.BlockReq? ==> forall dev, ino: u32 :: ReadyIno(v.w, dev, ino) ==> SparesInode(v, r, dev, ino)
  }

  /** A run that goes through, none of whose block requests writes to an inode. */
  ghost predicate CleanRun(s: TableState, reqs: seq<Request>, robust: Robust) {
    Serve(s, reqs, robust).Some? &&
    (reqs == [] ||
     (CleanRun(s, Init(reqs), robust) && SparesInodes(Preceding(s, reqs, robust), Last(reqs))))
  }

  /** What an inode must look like after a run: as its last new record has it. */
  ghost function Expected(s: TableState, reqs: seq<Request>, robust: Robust, dev: Dev, ino: u32): seq<byte>
    requires Serve(s, reqs, robust).Some?
    requires ReadyIno(s.w, dev, ino) && GeoOf(s.w, dev).inodeSize <= INODE_BYTES
  {
    if reqs == [] then View(s.w, s.t, dev, ino)
    else
      var i := NewRecord(Preceding(s, reqs, robust), Last(reqs));
      if i.Some? && i.value.dev == dev && i.value.ino == ino then i.value.raw[..GeoOf(s.w, dev).inodeSize]
      else Expected(s, Init(reqs), robust, dev, ino)
  }

  /** Requests that are not of the inode table keep it coherent, and show the same of every inode. */
  lemma {:induction false} OutsideKeeps(v: TableState, r: Request, robust: Robust)
    requires TableInv(v.w, v.t) && Allowed(v, r) && Effect(v, r, robust).Some? && (r.BlockReq? || r.FindReq?)
    requires SparesInodes(v, r)
    ensures var v' := Effect(v, r, robust).value;
      && v'.t == v.t && TableInv(v'.w, v'.t)
      && forall dev, ino: u32 :: SameView(v.w, v.t, v'.w, v'.t, dev, ino)
  {
    hide Step, Enabled, GroupFind, ReadyIno, Usable, Inv, Visible, PlaceOf, InodeKey, SparesInode;
    var v' := Effect(v, r, robust).value;
    RequestKeeps(v, r, robust);
    forall dev, ino: u32 ensures Kept(v.w, v'.w, dev, ino) {
      if ReadyIno(v.w, dev, ino) {
        assert SparesInode(v, r, dev, ino) by { FindSpares(v, r, dev, ino); }
        RequestSpares(v, r, robust, dev, ino);
      }
    }
    AllKept(v.w, v.t, v'.w);
  }

  lemma {:induction false} FindSpares(v: TableState, r: Request, dev: Dev, ino: u32)
    requires Allowed(v, r) && ReadyIno(v.w, dev, ino) && SparesInodes(v, r)
    ensures r.BlockReq? || r.FindReq? ==> SparesInode(v, r, dev, ino)
  {}

  /** What an inode looks like after a request, given what it looked like before. */
  ghost function LookAfter(v: TableState, r: Request, dev: Dev, ino: u32, before: seq<byte>): seq<byte>
    requires Allowed(v, r) && |before| <= INODE_BYTES
  {
    var i := NewRecord(v, r);
    if i.Some? && i.value.dev == dev && i.value.ino == ino then i.value.raw[..|before|] else before
  }

  /** One request: the table stays coherent, and an inode looks as before unless it got a new record. */
  lemma {:induction false} RequestShows(v: TableState, r: Request, robust: Robust, dev: Dev, ino: u32)
    requires TableInv(v.w, v.t) && Allowed(v, r) && Effect(v, r, robust).Some? && dev != NO_DEV
    requires SparesInodes(v, r) && ReadyIno(v.w, dev, ino) && GeoOf(v.w, dev).inodeSize <= INODE_BYTES
    ensures var v' := Effect(v, r, robust).value;
      && TableInv(v'.w, v'.t) && ReadyIno(v'.w, dev, ino) && GeoOf(v'.w, dev) == GeoOf(v.w, dev)
      && |View(v.w, v.t, dev, ino)| == GeoOf(v.w, dev).inodeSize
      && View(v'.w, v'.t, dev, ino) == LookAfter(v, r, dev, ino, View(v.w, v.t, dev, ino))
  {
    hide Enabled, Step, GroupFind, InodeGet, InodeRw, InodePut, ReadyIno, Locatable, TableInv, View, Visible, LastPut;
    hide SparesInodes;
    var v' := Effect(v, r, robust).value;
    ViewSize(v.w, v.t, dev, ino);
    match r
    case BlockReq(_) =>
      OutsideKeeps(v, r, robust);
      assert SameView(v.w, v.t, v'.w, v'.t, dev, ino);
    case FindReq(_, _) =>
      OutsideKeeps(v, r, robust);
      assert SameView(v.w, v.t, v'.w, v'.t, dev, ino);
    case RwReq(n, read) =>
      if v.t[n].dirty {
        InodeRwOfRecord(v.w, v.t, n, read, robust);
        DoneShows(v, v', n, v'.t[n], dev, ino);
      } else {
        CleanInodeRw(v.w, v.t[n], read, robust);
        assert v' == v;
      }
    case GetReq(d, i) =>
      InodeGetKeeps(v.w, v.t, d, i, robust);
      assert SameView(v.w, v.t, v'.w, v'.t, dev, ino);
    case ChangeReq(n, at, bytes) =>
      ChangeKeeps(v.w, v.t, n, at, bytes);
      DoneShows(v, v', n, v'.t[n], dev, ino);
    case PutReq(n) =>
      InodePutKeeps(v.w, v.t, n, robust);
      DoneShows(v, v', n, v'.t[n], dev, ino);
  }

  lemma {:induction false} ViewSize(w: Fs, t: seq<Inode>, dev: Dev, ino: u32)
    requires ReadyIno(w, dev, ino) && GeoOf(w, dev).inodeSize <= INODE_BYTES
    ensures |View(w, t, dev, ino)| == GeoOf(w, dev).inodeSize
  {}

  /** After record `i` took the place of the one in slot `n`, its inode looks as `i` has it. */
  lemma {:induction false} DoneShows(v: TableState, v': TableState, n: nat, i: Inode, dev: Dev, ino: u32)
    requires TableInv(v.w, v.t) && RecordDone(v.w, v.t, v'.w, v'.t, n, i) && dev != NO_DEV
    requires ReadyIno(v.w, dev, ino) && GeoOf(v.w, dev).inodeSize <= INODE_BYTES
    ensures ReadyIno(v'.w, dev, ino) && GeoOf(v'.w, dev) == GeoOf(v.w, dev)
    ensures
      var size := GeoOf(v.w, dev).inodeSize;
      if (dev, ino) == (i.dev, i.ino) then
        View(v'.w, v'.t, dev, ino) == i.raw[..size] && View(v.w, v.t, dev, ino) == v.t[n].raw[..size]
      else View(v'.w, v'.t, dev, ino) == View(v.w, v.t, dev, ino)
  {
    hide Inv, ReadyIno, View, Visible, RecordOk, TableOk;
    assert TableOk(v.t);
    if (dev, ino) == (i.dev, i.ino) {
      ViewIs(v.w, v.t, n);
    } else {
      assert SameView(v.w, v.t, v'.w, v'.t, dev, ino);
    }
  }

  /** Over every run of block and inode requests, each inode looks as the last change, final put or
      reading in of it left it, whichever slots and blocks were reused in between, and all records
      stay coherent with the logical disk. */
  lemma {:induction false} RequestsRefineInodes(
    s: TableState, reqs: seq<Request>, robust: Robust, dev: Dev, ino: u32)
    requires TableInv(s.w, s.t) && CleanRun(s, reqs, robust) && dev != NO_DEV
    requires ReadyIno(s.w, dev, ino) && GeoOf(s.w, dev).inodeSize <= INODE_BYTES
    ensures Serve(s, reqs, robust).Some?
    ensures var s' := Serve(s, reqs, robust).value;
      && TableInv(s'.w, s'.t) && ReadyIno(s'.w, dev, ino) && GeoOf(s'.w, dev) == GeoOf(s.w, dev)
      && View(s'.w, s'.t, dev, ino) == Expected(s, reqs, robust, dev, ino)
  {
    if reqs != [] {
      var v := Preceding(s, reqs, robust);
      RequestsRefineInodes(s, Init(reqs), robust, dev, ino);
      hide TableInv, ReadyIno, View, Effect, Allowed, NewRecord, SparesInodes;
      RequestShows(v, Last(reqs), robust, dev, ino);
    }
  }

  // ----- Requests are runs of block requests -----

  /** No counter of a block that the request borrows overflows. */
  ghost predicate LeavesRoom(s: TableState, r: Request)
    requires Allowed(s, r)
  {
    if r.FindReq? then HasRoom(s.w, Key(r.dev, GROUP_BLOCK))
    else
      match ErrandOf(s, r)
      case None => true
      case Some(e) =>
        HasRoom(e.w, Key(e.i.dev, GROUP_BLOCK)) && HasRoom(e.w, InodeKey(e.w, e.i.dev, e.i.ino))
  }

  /** The block requests that a request comes down to. */
  ghost function OpsOf(s: TableState, r: Request, robust: Robust): seq<Op>
    requires Allowed(s, r)
  {
    if r.BlockReq? then [r.op]
    else if r.FindReq? then BorrowOps(s.w, Key(r.dev, GROUP_BLOCK), None)
    else
      match ErrandOf(s, r)
      case None => []
      case Some(e) =>
        ReadyInoSize(e.w, e.i.dev, e.i.ino);
        (if e.w == s.w then [] else [TickOp]) + InodeRwOps(e.w, e.i, e.read, robust)
  }

  ghost function AllOps(s: TableState, reqs: seq<Request>, robust: Robust): seq<Op>
    requires Serve(s, reqs, robust).Some?
  {
    if reqs == [] then []
    else AllOps(s, Init(reqs), robust) + OpsOf(Preceding(s, reqs, robust), Last(reqs), robust)
  }

  ghost predicate AllLeaveRoom(s: TableState, reqs: seq<Request>, robust: Robust)
    requires Serve(s, reqs, robust).Some?
  {
    reqs == [] || (AllLeaveRoom(s, Init(reqs), robust) && LeavesRoom(Preceding(s, reqs, robust), Last(reqs)))
  }

  lemma {:induction false} ErrandIsRun(w: Fs, e: Errand, robust: Robust)
    requires Inv(w) && Usable(e.w, e.i.dev, e.i.ino) && (e.w == w || e.w == w.(clock := w.clock.After()))
    requires HasRoom(e.w, Key(e.i.dev, GROUP_BLOCK)) && HasRoom(e.w, InodeKey(e.w, e.i.dev, e.i.ino))
    requires InodeRw(e.w, e.i, e.read, robust).Some? && GeoOf(e.w, e.i.dev).inodeSize <= INODE_BYTES
    ensures Run(w, (if e.w == w then [] else [TickOp]) + InodeRwOps(e.w, e.i, e.read, robust), robust)
         == Some(InodeRw(e.w, e.i, e.read, robust).value.0)
  {
    hide Inv, ReadyIno, InodeRw, InodeRwOps, Locatable, HasRoom, InodeKey;
    TickKeeps(w);
    InodeRwIsRun(e.w, e.i, e.read, robust);
    var ops := InodeRwOps(e.w, e.i, e.read, robust);
    if e.w == w {
      assert [] + ops == ops;
    } else {
      assert Run(w, [], robust) == Some(w);
      assert [] + [TickOp] == [TickOp];
      RunOne(w, [], TickOp, robust);
      RunsConcatenate(w, [TickOp], ops, robust);
    }
  }

  lemma {:induction false} RequestIsRun(s: TableState, r: Request, robust: Robust)
    requires Inv(s.w) && Allowed(s, r) && Effect(s, r, robust).Some? && LeavesRoom(s, r)
    ensures Run(s.w, OpsOf(s, r, robust), robust) == Some(Effect(s, r, robust).value.w)
  {
    hide Inv, Enabled, Step, Effect, ReadyIno, InodeRw, InodeRwOps, Locatable, HasRoom, InodeKey, Borrow, BorrowOps;
    hide KeepsAccessTime, Visible;
    EffectBelow(s, r, robust);
    if r.BlockReq? {
      assert Run(s.w, [], robust) == Some(s.w);
      RunOne(s.w, [], r.op, robust);
      assert [] + [r.op] == [r.op];
    } else if r.FindReq? {
      UsableParts(s.w, r.dev, r.ino);
      GroupFindBorrows(s.w, r.dev, r.ino, robust);
      BorrowGets(s.w, Key(r.dev, GROUP_BLOCK), None, robust);
      BorrowIsRun(s.w, Key(r.dev, GROUP_BLOCK), None, robust);
    } else if ErrandOf(s, r).Some? {
      var e := ErrandOf(s, r).value;
      UsableParts(e.w, e.i.dev, e.i.ino);
      ErrandIsRun(s.w, e, robust);
    }
  }

  /** Unless a counter overflows, every run of requests is, for cache and devices, a run of block
      requests; what holds of all those holds through group_find, inode_rw, inode_get and inode_put. */
  lemma {:induction false} RequestsAreRuns(s: TableState, reqs: seq<Request>, robust: Robust)
    requires Inv(s.w) && Serve(s, reqs, robust).Some? && AllLeaveRoom(s, reqs, robust)
    ensures Run(s.w, AllOps(s, reqs, robust), robust) == Some(Serve(s, reqs, robust).value.w)
  {
    if reqs != [] {
      var v := Preceding(s, reqs, robust);
      RequestsAreRuns(s, Init(reqs), robust);
      ServeKeeps(s, Init(reqs), robust);
      hide Inv, Allowed, Effect, LeavesRoom, OpsOf, Run;
      RequestIsRun(v, Last(reqs), robust);
      RunsConcatenate(s.w, AllOps(s, Init(reqs), robust), OpsOf(v, Last(reqs), robust), robust);
    }
  }
}
