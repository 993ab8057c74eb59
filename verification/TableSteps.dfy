/** What single requests do to the inode table, and how repeated gets share a record. */
module TableSteps {
  import opened Config
  import opened Bytes
  import opened Superblock
  import opened Cache
  import opened History
  import opened Placement
  import opened Inodes
  import opened InodeProofs
  import opened InodeRuns
  import opened InodeTable

  // ----- inode_put -----

  /** Reading the clock changes nothing that anyone sees. */
  lemma {:induction false} TickIrrelevant(w: Fs, dev: Dev, ino: u32)
    ensures var w1 := w.(clock := w.clock.After());
      && (Inv(w) ==> Inv(w1)) && Logical(w1) == Logical(w) && w1.supers == w.supers
      && Kept(w, w1, dev, ino)
  {
    assert Logical(w.(clock := w.clock.After())) == Logical(w);
    StampsReflexive(w.supers);
    if ReadyIno(w, dev, ino) {
      SameDisk(w, w.(clock := w.clock.After()), dev, ino);
    }
  }

  /** Writing out a record: afterwards the record and the logical disk agree, and other inodes
      look as before. */
  lemma {:induction false} WriteOutShows(w: Fs, r: Inode, robust: Robust, dev: Dev, ino: u32)
    requires Inv(w) && ReadyIno(w, r.dev, r.ino) && ReadyIno(w, dev, ino) && GeoOf(w, r.dev).inodeSize <= INODE_BYTES
    requires !r.dirty ==> r.raw[..GeoOf(w, r.dev).inodeSize] == Visible(w, r.dev, r.ino)
    ensures Locatable(w, r.dev, r.ino)
    ensures var out := InodeRw(w, r, false, robust);
      out.Some? ==>
        && Inv(out.value.0) && SameButStamps(w.supers, out.value.0.supers) && out.value.1 == r.(dirty := false)
        && ReadyIno(out.value.0, dev, ino) && GeoOf(out.value.0, dev) == GeoOf(w, dev)
        && Visible(out.value.0, dev, ino) ==
             if dev == r.dev && ino == r.ino then r.raw[..GeoOf(w, dev).inodeSize] else Visible(w, dev, ino)
  {
    InodeRwKeeps(w, r, false, robust);
    if r.dirty && InodeRw(w, r, false, robust).Some? {
      RecordAfterIs(w, r, false);
      hide *;
      WriteShows(w, r, robust, dev, ino);
    }
  }

  /** What the last inode_put of an inode leaves. */
  lemma {:induction false} PutShows(w: Fs, i: Inode, robust: Robust, dev: Dev, ino: u32)
    requires Inv(w) && i.dev != NO_DEV && RecordOk(w, i) && i.count > 0 && ReadyIno(w, dev, ino)
    ensures var w1, r := LastPutClock(w, i), LastPut(w, i);
      && r.dev == i.dev && r.ino == i.ino && r.count == 0 && Locatable(w1, i.dev, i.ino)
      && var out := InodeRw(w1, r, false, robust);
      out.Some? ==>
        && Inv(out.value.0) && SameButStamps(w.supers, out.value.0.supers) && out.value.1 == r.(dirty := false)
        && ReadyIno(out.value.0, dev, ino) && GeoOf(out.value.0, dev) == GeoOf(w, dev)
        && Visible(out.value.0, dev, ino) ==
             if dev == i.dev && ino == i.ino then r.raw[..GeoOf(w, dev).inodeSize] else Visible(w, dev, ino)
  {
    var w1, r := LastPutClock(w, i), LastPut(w, i);
    TickIrrelevant(w, i.dev, i.ino);
    TickIrrelevant(w, dev, ino);
    assert w1 == w || w1 == w.(clock := w.clock.After());
    assert r.dev == i.dev && r.ino == i.ino && r.count == 0 && (!r.dirty ==> !i.dirty && r.raw == i.raw);
    assert ReadyIno(w, i.dev, i.ino) && GeoOf(w, i.dev).inodeSize <= INODE_BYTES;
    assert !i.dirty ==> i.raw[..GeoOf(w, i.dev).inodeSize] == Visible(w, i.dev, i.ino);
    hide *;
    WriteOutShows(w1, r, robust, dev, ino);
  }

  /** The table stays coherent, slot `n` has record `i` of the inode it had a record of, that
      inode looks as the record has it, and every other inode looks the same. */
  ghost predicate RecordDone(w: Fs, t: seq<Inode>, w': Fs, t': seq<Inode>, n: nat, i: Inode) {
    && TableInv(w', t') && n < |t| && t' == t[n := i] && i.dev == t[n].dev != NO_DEV && i.ino == t[n].ino
    && ReadyIno(w', i.dev, i.ino) && ReadyIno(w, i.dev, i.ino) && GeoOf(w', i.dev) == GeoOf(w, i.dev)
    && GeoOf(w, i.dev).inodeSize <= INODE_BYTES
    && View(w', t', i.dev, i.ino) == i.raw[..GeoOf(w, i.dev).inodeSize]
    && forall dev, ino: u32 :: dev != NO_DEV && (dev, ino) != (i.dev, i.ino) ==> SameView(w, t, w', t', dev, ino)
  }

  /** Replacing a record, while the logical disk stays. */
  lemma {:induction false} RecordChanged(w: Fs, t: seq<Inode>, n: nat, i: Inode)
    requires TableInv(w, t) && n < |t| && t[n].dev != NO_DEV && i.dev == t[n].dev && i.ino == t[n].ino
    requires RecordOk(w, i)
    ensures RecordDone(w, t, w, t[n := i], n, i)
  {
    RecordReplaced(w, t, w, n, i);
    hide ReadyIno, Visible, View, TableInv, SameView;
  }

  /** What inode_put of slot `n` achieves: it leaves record `i`, of which one user less holds a reference. */
  ghost predicate PutDone(w: Fs, t: seq<Inode>, w': Fs, t': seq<Inode>, n: nat, i: Inode) {
    RecordDone(w, t, w', t', n, i) && i.count == t[n].count - 1
  }

  /** An inode_put that is not the last only counts. */
  lemma {:induction false} PutCounts(w: Fs, t: seq<Inode>, n: nat)
    requires TableInv(w, t) && n < |t| && t[n].count > 1
    ensures var i := t[n].(count := t[n].count - 1); PutDone(w, t, w, t[n := i], n, i)
  {
    hide ReadyIno, Visible, View, Inv, RecordDone;
    assert RecordOk(w, t[n]);
    RecordChanged(w, t, n, t[n].(count := t[n].count - 1));
  }

  /** The last inode_put writes the inode out. */
  lemma {:induction false} PutLast(w: Fs, t: seq<Inode>, n: nat, robust: Robust, w': Fs)
    requires TableInv(w, t) && n < |t| && t[n].count == 1
    requires Locatable(LastPutClock(w, t[n]), t[n].dev, t[n].ino)
    requires var out := InodeRw(LastPutClock(w, t[n]), LastPut(w, t[n]), false, robust); out.Some? && out.value.0 == w'
    ensures var i := LastPut(w, t[n]).(dirty := false);
      && PutDone(w, t, w', t[n := i], n, i) && Visible(w', i.dev, i.ino) == View(w', t[n := i], i.dev, i.ino)
  {
    hide InodeRw, Inv, Visible, ReadyIno, View, LastPut, LastPutClock, Locatable;
    var i := LastPut(w, t[n]).(dirty := false);
    RecordInUse(w, t, n);
    PutShows(w, t[n], robust, t[n].dev, t[n].ino);
    forall dev, ino: u32 | (dev, ino) != (i.dev, i.ino) ensures Kept(w, w', dev, ino) {
      if ReadyIno(w, dev, ino) {
        PutShows(w, t[n], robust, dev, ino);
      }
    }
    RecordReplaced(w, t, w', n, i);
  }

  /** inode_put keeps the table coherent and every other inode as it looks; the last one brings
      the access time up to date and leaves the inode's bytes on the logical disk. */
  lemma {:induction false} InodePutKeeps(w: Fs, t: seq<Inode>, n: nat, robust: Robust)
    requires TableInv(w, t) && n < |t| && t[n].count > 0
    ensures Locatable(w, t[n].dev, t[n].ino)
    ensures InodePut(w, t, n, robust).Some? ==>
      var (w', t') := InodePut(w, t, n, robust).value;
      if t[n].count > 1 then
        w' == w && PutDone(w, t, w, t', n, t[n].(count := t[n].count - 1))
      else
        var i := LastPut(w, t[n]).(dirty := false);
        PutDone(w, t, w', t', n, i) && Visible(w', i.dev, i.ino) == View(w', t', i.dev, i.ino)
  {
    hide *;
    RecordInUse(w, t, n);
    ReadyLocatable(w, t[n].dev, t[n].ino);
    InodePutUnfolds(w, t, n, robust);
    if t[n].count > 1 {
      PutCounts(w, t, n);
    } else if InodePut(w, t, n, robust).Some? {
      PutShows(w, t[n], robust, t[n].dev, t[n].ino);
      PutLast(w, t, n, robust, InodePut(w, t, n, robust).value.0);
    }
  }

  lemma {:induction false} RecordInUse(w: Fs, t: seq<Inode>, n: nat)
    requires TableInv(w, t) && n < |t| && t[n].count > 0
    ensures Inv(w) && RecordOk(w, t[n]) && t[n].dev != NO_DEV && ReadyIno(w, t[n].dev, t[n].ino)
    ensures GeoOf(w, t[n].dev).inodeSize <= INODE_BYTES && Dec8(t[n].count) == t[n].count - 1
  {
    hide ReadyIno, Visible, Inv;
    assert RecordOk(w, t[n]);
  }

  /** inode_put, step by step. */
  lemma {:induction false} InodePutUnfolds(w: Fs, t: seq<Inode>, n: nat, robust: Robust)
    requires n < |t| && Locatable(w, t[n].dev, t[n].ino)
    ensures var i, r := t[n], InodePut(w, t, n, robust);
      && LastPut(w, i).dev == i.dev && LastPut(w, i).ino == i.ino && Locatable(LastPutClock(w, i), i.dev, i.ino)
      && if Dec8(i.count) > 0 then r == Some((w, t[n := i.(count := Dec8(i.count))]))
         else
           match InodeRw(LastPutClock(w, i), LastPut(w, i), false, robust)
           case None => r.None?
           case Some((w', i')) => r == Some((w', t[n := i']))
  {
    hide KeepsAccessTime, Released, InodeRw, Divisible, Group;
  }

  /** The bit of i_flags that asks not to update the access time. */
  predicate NoAccessTime(i: Inode) { (U32(i.raw, I_FLAGS) as bv32) / 0x80 % 2 == 1 }

  /** inode_put reads the clock, once, exactly for an inode that does not ask not to be updated. */
  lemma {:induction false} LastPutReadsClock(w: Fs, i: Inode)
    ensures NoAccessTime(i) <==> KeepsAccessTime(i)
    ensures LastPutClock(w, i) == w.(clock := if NoAccessTime(i) then w.clock else w.clock.After())
  {
    hide U32;
  }

  /** Once the last user has put an inode that does not ask otherwise, its access time on the logical
      disk is the next reading of the clock, and its other bytes are the record's; an inode that asks not
      to be updated is there as the record has it, and the clock is not read. */
  lemma {:induction false} LastPutStamps(w: Fs, t: seq<Inode>, n: nat, robust: Robust)
    requires TableInv(w, t) && n < |t| && t[n].count == 1
    ensures Locatable(w, t[n].dev, t[n].ino)
    ensures InodePut(w, t, n, robust).Some? ==>
      var (w', t') := InodePut(w, t, n, robust).value;
      var i := t[n];
      && ReadyIno(w', i.dev, i.ino) && n < |t'| && t'[n].count == 0 && !t'[n].dirty
      && var bytes := Visible(w', i.dev, i.ino);
        && |bytes| <= INODE_BYTES
        && (NoAccessTime(i) ==> bytes == i.raw[..|bytes|])
        && (!NoAccessTime(i) && I_ATIME + 4 <= |bytes| ==> U32(bytes, I_ATIME) == w.clock.Now())
        && (forall m :: 0 <= m < |bytes| && !(I_ATIME <= m < I_ATIME + 4) ==> bytes[m] == i.raw[m])
  {
    RecordInUse(w, t, n);
    InodePutKeeps(w, t, n, robust);
    if InodePut(w, t, n, robust).Some? {
      var (w', t') := InodePut(w, t, n, robust).value;
      var i := LastPut(w, t[n]);
      LastPutReadsClock(w, t[n]);
      VisibleSize(w', i.dev, i.ino);
      var size := GeoOf(w', i.dev).inodeSize;
      if I_ATIME + 4 <= size {
        FieldOfSlice(i.raw, 0, size, I_ATIME);
      }
      hide InodePut, TableInv, ReadyIno, Visible, View, U32, NoAccessTime, Inv, KeepsAccessTime;
      assert i.raw[0..size] == i.raw[..size];
      assert PutDone(w, t, w', t', n, i.(dirty := false));
    }
  }

  lemma {:induction false} VisibleSize(w: Fs, dev: Dev, ino: u32)
    requires ReadyIno(w, dev, ino)
    ensures |Visible(w, dev, ino)| == GeoOf(w, dev).inodeSize <= INODE_BYTES
  {}

  // ----- inode_rw and holders' changes -----

  /** inode_rw of a record keeps the table coherent and every other inode as it looks. A record
      written out looks as before; one read in looks as the logical disk has it. */
  lemma {:induction false} InodeRwOfRecord(w: Fs, t: seq<Inode>, n: nat, read: bool, robust: Robust)
    requires TableInv(w, t) && n < |t| && t[n].dev != NO_DEV
    ensures Locatable(w, t[n].dev, t[n].ino) && GeoOf(w, t[n].dev).inodeSize <= INODE_BYTES
    ensures InodeRw(w, t[n], read, robust).Some? ==>
      var (w', i) := InodeRw(w, t[n], read, robust).value;
      && RecordDone(w, t, w', t[n := i], n, i)
      && i.raw == if t[n].dirty && read then Loaded(t[n], Visible(w, i.dev, i.ino)).raw else t[n].raw
  {
    hide InodeRw, Inv, Visible, ReadyIno, View, Locatable;
    assert RecordOk(w, t[n]);
    var i := t[n];
    InodeRwKeeps(w, i, read, robust);
    if InodeRw(w, i, read, robust).Some? {
      var (w', i') := InodeRw(w, i, read, robust).value;
      RwRecordOk(w, i, read, robust);
      forall dev, ino: u32 | (dev, ino) != (i.dev, i.ino) ensures Kept(w, w', dev, ino) {
        if ReadyIno(w, dev, ino) {
          InodeRwSpares(w, i, read, robust, dev, ino);
        }
      }
      RecordReplaced(w, t, w', n, i');
    }
  }

  /** The record that inode_rw leaves agrees with the logical disk. */
  lemma {:induction false} RwRecordOk(w: Fs, i: Inode, read: bool, robust: Robust)
    requires Inv(w) && RecordOk(w, i) && i.dev != NO_DEV
    ensures Locatable(w, i.dev, i.ino) && GeoOf(w, i.dev).inodeSize <= INODE_BYTES
    ensures InodeRw(w, i, read, robust).Some? ==>
      var (w', i') := InodeRw(w, i, read, robust).value;
      && Inv(w') && RecordOk(w', i') && ReadyIno(w', i.dev, i.ino) && GeoOf(w', i.dev) == GeoOf(w, i.dev)
      && i'.dev == i.dev && i'.ino == i.ino && i'.count == i.count
      && i'.raw == if i.dirty && read then Loaded(i, Visible(w, i.dev, i.ino)).raw else i.raw
  {
    InodeRwKeeps(w, i, read, robust);
    if InodeRw(w, i, read, robust).Some? {
      if i.dirty && !read {
        RecordAfterIs(w, i, read);
        hide InodeRw, Inv, Visible, ReadyIno, Locatable;
        WriteShows(w, i, robust, i.dev, i.ino);
      } else {
        if i.dirty {
          RecordAfterIs(w, i, read);
        }
        hide InodeRw, Inv, Visible, ReadyIno, Locatable;
        InodeRwSpares(w, i, read, robust, i.dev, i.ino);
      }
    }
  }

  /** A holder changes on-device fields of a record and marks it dirty. */
  function Changed(i: Inode, at: nat, bytes: seq<byte>): Inode
    requires at + |bytes| <= INODE_BYTES
  {
    i.(raw := Splice(i.raw, at, bytes), dirty := true)
  }

  /** A holder's change keeps the table coherent and every other inode as it looks. */
  lemma {:induction false} ChangeKeeps(w: Fs, t: seq<Inode>, n: nat, at: nat, bytes: seq<byte>)
    requires TableInv(w, t) && n < |t| && t[n].count > 0 && at + |bytes| <= INODE_BYTES
    ensures var i := Changed(t[n], at, bytes); RecordDone(w, t, w, t[n := i], n, i)
  {
    hide ReadyIno, Visible, View, Inv, RecordDone, Splice;
    assert RecordOk(w, t[n]);
    RecordChanged(w, t, n, Changed(t[n], at, bytes));
  }

  // ----- Counting users of one inode -----

  /** The cache, the table and the slot after one more get of an inode. */
  ghost function GetOnce(s: TableState, dev: Dev, ino: u32, robust: Robust): Option<(TableState, nat)> {
    if !Locatable(s.w, dev, ino) then None
    else
      match InodeGet(s.w, s.t, dev, ino, robust)
      case None => None
      case Some((w', t', n)) => Some((TableState(w', t'), n))
  }

  ghost function GetTimes(s: TableState, dev: Dev, ino: u32, robust: Robust, calls: nat): Option<(TableState, nat)> {
    if calls == 0 then Some((s, 0))
    else
      match GetTimes(s, dev, ino, robust, calls - 1)
      case None => None
      case Some((v, _)) => GetOnce(v, dev, ino, robust)
  }

  /** Getting an inode that has a record. */
  lemma {:induction false} GetAgain(s: TableState, n: nat, robust: Robust)
    requires TableOk(s.t) && n < |s.t| && s.t[n].dev != NO_DEV && Locatable(s.w, s.t[n].dev, s.t[n].ino)
    ensures GetOnce(s, s.t[n].dev, s.t[n].ino, robust) ==
      Some((s.(t := s.t[n := s.t[n].(count := Inc8(s.t[n].count))]), n))
  {
    FoundIs(s.t, s.t[n].dev, s.t[n].ino, n);
    hide TableOk, Locatable;
  }

  /** A slot with another count. */
  function Recount(s: TableState, n: nat, c: byte): TableState
    requires n < |s.t|
  {
    s.(t := s.t[n := s.t[n].(count := c)])
  }

  lemma {:induction false} GetRecounted(s: TableState, n: nat, c: byte, robust: Robust)
    requires TableOk(s.t) && n < |s.t| && s.t[n].dev != NO_DEV && Locatable(s.w, s.t[n].dev, s.t[n].ino)
    ensures GetOnce(Recount(s, n, c), s.t[n].dev, s.t[n].ino, robust) == Some((Recount(s, n, Inc8(c)), n))
  {
    var v := Recount(s, n, c);
    RenewTable(s.t, n, v.t[n]);
    GetAgain(v, n, robust);
    hide GetOnce, TableOk, Locatable;
    assert v.t[n := v.t[n].(count := Inc8(c))] == s.t[n := s.t[n].(count := Inc8(c))];
  }

  /** The first get of an inode without a record. */
  lemma {:induction false} FirstGet(s: TableState, dev: Dev, ino: u32, robust: Robust)
    requires TableInv(s.w, s.t) && ReadyIno(s.w, dev, ino) && dev != NO_DEV
    requires Find(s.t, dev, ino).None? && GetOnce(s, dev, ino, robust).Some?
    ensures var (s1, n) := GetOnce(s, dev, ino, robust).value;
      && n < |s1.t| && s1.t[n].dev == dev && s1.t[n].ino == ino && s1.t[n].count == 1
      && TableOk(s1.t) && Locatable(s1.w, dev, ino)
  {
    var (s1, n) := GetOnce(s, dev, ino, robust).value;
    InodeGetGives(s.w, s.t, dev, ino, robust);
    assert TableOk(s.t);
    hide TableInv, InodeGet, Inv, ReadyIno, Visible, Logical, Locatable, RecordOk, TableOk;
    FreshTable(s.t, n, s1.t[n]);
    SameDisk(s.w, s1.w, dev, ino);
    ReadyLocatable(s1.w, dev, ino);
  }

  lemma {:induction false} CountsOn(calls: nat)
    requires calls > 0
    ensures Inc8(Count8(calls - 1)) == Count8(calls) && Count8(1) == 1
  {}

  /** Gets of an inode share one slot, count the calls in its 8-bit counter, and read the device
      only once. */
  lemma {:induction false} RepeatedGetsShare(s: TableState, dev: Dev, ino: u32, robust: Robust, calls: nat)
    requires TableInv(s.w, s.t) && ReadyIno(s.w, dev, ino) && dev != NO_DEV && calls > 0
    requires Find(s.t, dev, ino).None?
    ensures GetOnce(s, dev, ino, robust).Some? ==>
      var (s1, n) := GetOnce(s, dev, ino, robust).value;
      && n < |s1.t| && s1.t[n].dev == dev && s1.t[n].ino == ino && s1.t[n].count == 1
      && GetTimes(s, dev, ino, robust, calls) == Some((Recount(s1, n, Count8(calls)), n))
  {
    hide GetOnce, Locatable, TableInv, TableOk, ReadyIno, Find;
    if GetOnce(s, dev, ino, robust).None? {
      return;
    }
    var (s1, n) := GetOnce(s, dev, ino, robust).value;
    FirstGet(s, dev, ino, robust);
    CountsOn(calls);
    if calls == 1 {
      assert GetTimes(s, dev, ino, robust, 0) == Some((s, 0));
      assert GetTimes(s, dev, ino, robust, 1) == GetOnce(s, dev, ino, robust);
      assert Recount(s1, n, 1) == s1 by {
        assert s1.t[n := s1.t[n].(count := 1)] == s1.t;
      }
      hide *;
    } else {
      RepeatedGetsShare(s, dev, ino, robust, calls - 1);
      var v := Recount(s1, n, Count8(calls - 1));
      assert GetTimes(s, dev, ino, robust, calls) == GetOnce(v, dev, ino, robust);
      hide *;
      GetRecounted(s1, n, Count8(calls - 1), robust);
    }
  }
}
