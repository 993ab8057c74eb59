/** The inode table over runs: one record per inode, shared by its users, and coherent with the
    inodes on the logical disk. */
module InodeTable {
  import opened Config
  import opened Bytes
  import opened Device
  import opened Superblock
  import opened Cache
  import opened Inodes
  import opened InodeProofs
  import opened InodeRuns

  /** The block cache with all below it, and the table on top. */
  datatype TableState = TableState(w: Fs, t: seq<Inode>)

  /** At most one record per inode; empty slots are in nobody's use. */
  ghost predicate TableOk(t: seq<Inode>) {
    && (forall n :: 0 <= n < |t| && t[n].dev == NO_DEV ==> t[n].count == 0)
    && (forall m, n :: 0 <= m < n < |t| && t[m].dev != NO_DEV ==> (t[m].dev, t[m].ino) != (t[n].dev, t[n].ino))
  }

  /** A record is of an inode of a mounted device; a clean one agrees with the inode on the
      logical disk, and one in nobody's use is clean. */
  ghost predicate RecordOk(w: Fs, i: Inode) {
    i.dev != NO_DEV ==>
      && ReadyIno(w, i.dev, i.ino) && GeoOf(w, i.dev).inodeSize <= INODE_BYTES
      && (!i.dirty ==> i.raw[..GeoOf(w, i.dev).inodeSize] == Visible(w, i.dev, i.ino))
      && (i.count == 0 ==> !i.dirty)
  }

  ghost predicate TableInv(w: Fs, t: seq<Inode>) {
    Inv(w) && TableOk(t) && forall n :: 0 <= n < |t| ==> RecordOk(w, t[n])
  }

  /** An inode as its users see it: the record if there is one, and the logical disk otherwise. */
  ghost function View(w: Fs, t: seq<Inode>, dev: Dev, ino: u32): seq<byte>
    requires ReadyIno(w, dev, ino) && GeoOf(w, dev).inodeSize <= INODE_BYTES
  {
    match Find(t, dev, ino)
    case Some(n) => t[n].raw[..GeoOf(w, dev).inodeSize]
    case None => Visible(w, dev, ino)
  }

  lemma {:induction false} FoundIs(t: seq<Inode>, dev: Dev, ino: u32, n: nat)
    requires TableOk(t) && dev != NO_DEV && n < |t| && t[n].dev == dev && t[n].ino == ino
    ensures Find(t, dev, ino) == Some(n)
  {
    assert FoundAt(t, dev, ino, n);
    var m := Find(t, dev, ino).value;
    assert t[m].dev == dev && t[m].ino == ino;
  }

  lemma {:induction false} NotFound(t: seq<Inode>, dev: Dev, ino: u32, m: nat)
    requires Find(t, dev, ino).None? && m < |t|
    ensures t[m].dev != dev || t[m].ino != ino
    decreases m
  {
    if forall k: nat :: k < m ==> t[k].dev != dev || t[k].ino != ino {
      assert !FoundAt(t, dev, ino, m);
    } else {
      var k: nat :| k < m && t[k].dev == dev && t[k].ino == ino;
      NotFound(t, dev, ino, k);
    }
  }

  /** inode_get finds a record whenever there is one, and otherwise takes a slot in nobody's use
      and reads the inode into it: the in-memory fields are set, not read. */
  lemma {:induction false} InodeGetGives(w: Fs, t: seq<Inode>, dev: Dev, ino: u32, robust: Robust)
    requires TableInv(w, t) && ReadyIno(w, dev, ino) && dev != NO_DEV
    ensures Locatable(w, dev, ino) && GeoOf(w, dev).inodeSize <= INODE_BYTES
    ensures var r := InodeGet(w, t, dev, ino, robust);
      r.Some? ==>
        var (w', t', n) := r.value;
        && n < |t| && |t'| == |t| && t' == t[n := t'[n]]
        && if Find(t, dev, ino).Some? then
             w' == w && Find(t, dev, ino) == Some(n) && t'[n] == t[n].(count := Inc8(t[n].count))
           else
             && t[n].count == 0 && (forall m :: 0 <= m < n ==> t[m].count != 0)
             && t'[n] == Inode(Splice(t[n].raw, 0, Visible(w, dev, ino)), dev, ino, 1, false, false)
             && Inv(w') && SameButStamps(w.supers, w'.supers) && NetZero(w, w') && Logical(w') == Logical(w)
  {
    ReadyLocatable(w, dev, ino);
    ReadySize(w, dev);
    if Find(t, dev, ino).None? && FindFree(t).Some? {
      var n := FindFree(t).value;
      var blank := Fresh(t[n], dev, ino);
      InodeGetReads(w, t, dev, ino, robust, n);
      FreshIs(w, t[n], dev, ino);
      hide *;
      InodeRwKeeps(w, blank, true, robust);
    }
  }

  lemma {:induction false} FreshIs(w: Fs, i: Inode, dev: Dev, ino: u32)
    requires ReadyIno(w, dev, ino) && GeoOf(w, dev).inodeSize <= INODE_BYTES
    ensures var blank := Fresh(i, dev, ino);
      && blank.dev == dev && blank.ino == ino && DiskAfter(w, blank, true) == Logical(w)
      && RecordAfter(w, blank, true) == Inode(Splice(i.raw, 0, Visible(w, dev, ino)), dev, ino, 1, false, false)
  {
    RecordAfterIs(w, Fresh(i, dev, ino), true);
  }

  /** Without a record, inode_get reads the inode into a slot in nobody's use. */
  lemma {:induction false} InodeGetReads(w: Fs, t: seq<Inode>, dev: Dev, ino: u32, robust: Robust, n: nat)
    requires Locatable(w, dev, ino) && Find(t, dev, ino).None? && FindFree(t) == Some(n)
    ensures n < |t| && t[n].count == 0 && forall m :: 0 <= m < n ==> t[m].count != 0
    ensures var r, read := InodeGet(w, t, dev, ino, robust), InodeRw(w, Fresh(t[n], dev, ino), true, robust);
      (r.Some? <==> read.Some?) && (r.Some? ==> r.value == (read.value.0, t[n := read.value.1], n))
  {
    hide Locatable, InodeRw;
  }

  /** inode_get panics exactly when there is no record and no slot for one, or the blocks run out. */
  lemma {:induction false} InodeGetPanics(w: Fs, t: seq<Inode>, dev: Dev, ino: u32, robust: Robust)
    requires TableInv(w, t) && ReadyIno(w, dev, ino) && dev != NO_DEV
    ensures Locatable(w, dev, ino)
    ensures InodeGet(w, t, dev, ino, robust).None? <==>
      && (forall n :: 0 <= n < |t| ==> (t[n].dev, t[n].ino) != (dev, ino))
      && ((forall n :: 0 <= n < |t| ==> t[n].count > 0) ||
          (AllHeld(w) &&
           (Cached(w.slots, Key(dev, GROUP_BLOCK)).None? || Cached(w.slots, InodeKey(w, dev, ino)).None?)))
  {
    ReadyLocatable(w, dev, ino);
    match Find(t, dev, ino)
    case Some(n) => assert (t[n].dev, t[n].ino) == (dev, ino);
    case None =>
      forall n | 0 <= n < |t| ensures (t[n].dev, t[n].ino) != (dev, ino) {
        NotFound(t, dev, ino, n);
      }
      if n: nat :| n < |t| && t[n].count == 0 {
        FreeExists(t, n);
        InodeRwPanics(w, Fresh(t[FindFree(t).value], dev, ino), true, robust);
      }
  }

  lemma {:induction false} FreeExists(t: seq<Inode>, n: nat)
    requires n < |t| && t[n].count == 0
    ensures FindFree(t).Some?
    decreases n
  {
    if m: nat :| m < n && t[m].count == 0 {
      FreeExists(t, m);
    } else {
      assert FreeAt(t, n);
    }
  }

  // ----- What users see -----

  /** The two states show the same of an inode. */
  ghost predicate SameView(w: Fs, t: seq<Inode>, w': Fs, t': seq<Inode>, dev: Dev, ino: u32) {
    ReadyIno(w, dev, ino) && GeoOf(w, dev).inodeSize <= INODE_BYTES ==>
      && ReadyIno(w', dev, ino) && GeoOf(w', dev) == GeoOf(w, dev)
      && View(w', t', dev, ino) == View(w, t, dev, ino)
  }

  lemma {:induction false} ViewIs(w: Fs, t: seq<Inode>, n: nat)
    requires TableOk(t) && n < |t| && t[n].dev != NO_DEV
    requires ReadyIno(w, t[n].dev, t[n].ino) && GeoOf(w, t[n].dev).inodeSize <= INODE_BYTES
    ensures View(w, t, t[n].dev, t[n].ino) == t[n].raw[..GeoOf(w, t[n].dev).inodeSize]
  {
    FoundIs(t, t[n].dev, t[n].ino, n);
  }

  /** Replacing one record, while the logical disk stays, as far as some inode is concerned. */
  lemma {:induction false} ReplaceView(w: Fs, t: seq<Inode>, w': Fs, n: nat, i: Inode, dev: Dev, ino: u32)
    requires n < |t| && TableOk(t) && TableOk(t[n := i]) && dev != NO_DEV
    requires ReadyIno(w, dev, ino) && GeoOf(w, dev).inodeSize <= INODE_BYTES
    requires ReadyIno(w', dev, ino) && GeoOf(w', dev) == GeoOf(w, dev)
    requires (dev, ino) != (t[n].dev, t[n].ino) && (dev, ino) != (i.dev, i.ino)
    requires Visible(w', dev, ino) == Visible(w, dev, ino)
    ensures View(w', t[n := i], dev, ino) == View(w, t, dev, ino)
  {
    hide ReadyIno, Visible;
    match Find(t, dev, ino)
    case Some(m) => FoundIs(t[n := i], dev, ino, m);
    case None =>
      if Find(t[n := i], dev, ino).Some? {
        FoundIs(t, dev, ino, Find(t[n := i], dev, ino).value);
      }
  }

  /** A record stays fit for its device while what is visible of its inode stays. */
  lemma {:induction false} RecordKept(w: Fs, w': Fs, i: Inode)
    requires RecordOk(w, i)
    requires i.dev != NO_DEV ==>
      && ReadyIno(w', i.dev, i.ino) && GeoOf(w', i.dev) == GeoOf(w, i.dev)
      && Visible(w', i.dev, i.ino) == Visible(w, i.dev, i.ino)
    ensures RecordOk(w', i)
  {}

  lemma {:induction false} SameDisk(w: Fs, w': Fs, dev: Dev, ino: u32)
    requires SameButStamps(w.supers, w'.supers) && Logical(w') == Logical(w) && ReadyIno(w, dev, ino)
    ensures ReadyIno(w', dev, ino) && GeoOf(w', dev) == GeoOf(w, dev) && Visible(w', dev, ino) == Visible(w, dev, ino)
  {
    SameDiskSameInodes(w, w', dev);
    SameGeo(w, w', dev);
  }

  /** Another record of the same inode in its slot keeps records unique. */
  lemma {:induction false} RenewTable(t: seq<Inode>, n: nat, i: Inode)
    requires TableOk(t) && n < |t| && i.dev == t[n].dev && i.ino == t[n].ino && i.dev != NO_DEV
    ensures TableOk(t[n := i])
  {}

  lemma {:induction false} DistinctRecords(t: seq<Inode>, m: nat, n: nat)
    requires TableOk(t) && m < |t| && n < |t| && m != n && t[m].dev != NO_DEV && t[n].dev != NO_DEV
    ensures (t[m].dev, t[m].ino) != (t[n].dev, t[n].ino)
  {
    if m < n {
      assert (t[m].dev, t[m].ino) != (t[n].dev, t[n].ino);
    } else {
      assert (t[n].dev, t[n].ino) != (t[m].dev, t[m].ino);
    }
  }

  /** An inode that is ready stays so, and looks the same on the logical disk. */
  ghost predicate Kept(w: Fs, w': Fs, dev: Dev, ino: u32) {
    ReadyIno(w, dev, ino) ==>
      ReadyIno(w', dev, ino) && GeoOf(w', dev) == GeoOf(w, dev) && Visible(w', dev, ino) == Visible(w, dev, ino)
  }

  /** One record is replaced by another of the same inode; the logical disk keeps all other inodes. */
  lemma {:induction false} RecordReplaced(w: Fs, t: seq<Inode>, w': Fs, n: nat, i: Inode)
    requires TableInv(w, t) && n < |t| && t[n].dev != NO_DEV && i.dev == t[n].dev && i.ino == t[n].ino
    requires Inv(w') && RecordOk(w', i)
    requires forall dev, ino: u32 :: (dev, ino) != (i.dev, i.ino) ==> Kept(w, w', dev, ino)
    ensures TableInv(w', t[n := i])
    ensures View(w', t[n := i], i.dev, i.ino) == i.raw[..GeoOf(w', i.dev).inodeSize]
    ensures forall dev, ino: u32 ::
              dev != NO_DEV && (dev, ino) != (i.dev, i.ino) ==> SameView(w, t, w', t[n := i], dev, ino)
  {
    hide ReadyIno, Visible, Inv, View;
    var t' := t[n := i];
    RenewTable(t, n, i);
    forall m | 0 <= m < |t'| ensures RecordOk(w', t'[m]) {
      if m != n && t[m].dev != NO_DEV {
        DistinctRecords(t, m, n);
        assert Kept(w, w', t[m].dev, t[m].ino);
        RecordKept(w, w', t[m]);
      }
    }
    ViewIs(w', t', n);
    forall dev, ino: u32 | dev != NO_DEV && (dev, ino) != (i.dev, i.ino) ensures SameView(w, t, w', t', dev, ino) {
      assert Kept(w, w', dev, ino);
      if ReadyIno(w, dev, ino) {
        ReadyInoSize(w, dev, ino);
        ReplaceView(w, t, w', n, i, dev, ino);
      }
    }
  }

  /** No record is replaced; the logical disk keeps all inodes. */
  lemma {:induction false} AllKept(w: Fs, t: seq<Inode>, w': Fs)
    requires TableInv(w, t) && Inv(w') && forall dev, ino: u32 :: Kept(w, w', dev, ino)
    ensures TableInv(w', t) && forall dev, ino: u32 :: SameView(w, t, w', t, dev, ino)
  {
    hide ReadyIno, Visible, Inv;
    forall m | 0 <= m < |t| ensures RecordOk(w', t[m]) {
      assert Kept(w, w', t[m].dev, t[m].ino);
      RecordKept(w, w', t[m]);
    }
    forall dev, ino: u32 ensures SameView(w, t, w', t, dev, ino) {
      assert Kept(w, w', dev, ino);
    }
  }

  /** What inode_get achieves: slot `n` holds the inode, the table stays coherent, and every
      inode looks the same as before. */
  ghost predicate GetDone(w: Fs, t: seq<Inode>, w': Fs, t': seq<Inode>, n: nat, dev: Dev, ino: u32) {
    && TableInv(w', t') && n < |t'| && t'[n].dev == dev && t'[n].ino == ino && t'[n].count > 0
    && forall dev2, ino2: u32 :: dev2 != NO_DEV ==> SameView(w, t, w', t', dev2, ino2)
  }

  lemma {:induction false} GetFound(w: Fs, t: seq<Inode>, n: nat)
    requires TableInv(w, t) && n < |t| && t[n].dev != NO_DEV && t[n].count < 0xFF
    ensures GetDone(w, t, w, t[n := t[n].(count := Inc8(t[n].count))], n, t[n].dev, t[n].ino)
  {
    var i := t[n].(count := Inc8(t[n].count));
    var t' := t[n := i];
    assert RecordOk(w, t[n]);
    hide Visible, ReadyIno, Inv, View;
    assert TableInv(w, t');
    forall dev2, ino2: u32 | dev2 != NO_DEV ensures SameView(w, t, w, t', dev2, ino2) {
      hide SameView;
      SameRawSameView(w, t, n, i, dev2, ino2);
    }
  }

  lemma {:induction false} GetFresh(w: Fs, t: seq<Inode>, w': Fs, n: nat, i: Inode)
    requires TableInv(w, t) && n < |t| && t[n].count == 0 && Inv(w')
    requires SameButStamps(w.supers, w'.supers) && Logical(w') == Logical(w)
    requires i.dev != NO_DEV && ReadyIno(w, i.dev, i.ino) && GeoOf(w, i.dev).inodeSize <= INODE_BYTES
    requires Find(t, i.dev, i.ino).None? && i.count == 1
    requires i.raw[..GeoOf(w, i.dev).inodeSize] == Visible(w, i.dev, i.ino)
    ensures GetDone(w, t, w', t[n := i], n, i.dev, i.ino)
  {
    FreshTable(t, n, i);
    FreshRecords(w, t, w', n, i);
    hide Inv, Visible, ReadyIno, RecordOk, TableOk, View, SameView;
    var t' := t[n := i];
    forall dev2, ino2: u32 | dev2 != NO_DEV ensures SameView(w, t, w', t', dev2, ino2) {
      FreshView(w, t, w', n, i, dev2, ino2);
    }
  }

  /** inode_get keeps the table coherent and shows the same of every inode: the slot it takes
      over held nothing that is not on the logical disk. */
  lemma {:induction false} InodeGetKeeps(w: Fs, t: seq<Inode>, dev: Dev, ino: u32, robust: Robust)
    requires TableInv(w, t) && ReadyIno(w, dev, ino) && dev != NO_DEV
    requires Find(t, dev, ino).Some? ==> t[Find(t, dev, ino).value].count < 0xFF
    ensures Locatable(w, dev, ino)
    ensures InodeGet(w, t, dev, ino, robust).Some? ==>
      var (w', t', n) := InodeGet(w, t, dev, ino, robust).value; GetDone(w, t, w', t', n, dev, ino)
  {
    InodeGetGives(w, t, dev, ino, robust);
    hide InodeGet, ReadyIno, Inv, Visible, GetDone, TableInv, Locatable;
    if InodeGet(w, t, dev, ino, robust).None? {
      return;
    }
    var (w', t', n) := InodeGet(w, t, dev, ino, robust).value;
    if Find(t, dev, ino).Some? {
      GetFound(w, t, n);
    } else {
      GetFresh(w, t, w', n, t'[n]);
    }
  }

  lemma {:induction false} SameRawSameView(w: Fs, t: seq<Inode>, n: nat, i: Inode, dev: Dev, ino: u32)
    requires TableOk(t) && n < |t| && i.raw == t[n].raw && i.dev == t[n].dev && i.ino == t[n].ino && TableOk(t[n := i])
    requires dev != NO_DEV
    ensures SameView(w, t, w, t[n := i], dev, ino)
  {
    hide ReadyIno, Visible;
    match Find(t, dev, ino)
    case Some(m) => FoundIs(t[n := i], dev, ino, m);
    case None =>
      if Find(t[n := i], dev, ino).Some? {
        FoundIs(t, dev, ino, Find(t[n := i], dev, ino).value);
      }
  }

  /** Putting a record into a slot keeps records unique if there was none of its inode. */
  lemma {:induction false} FreshTable(t: seq<Inode>, n: nat, i: Inode)
    requires TableOk(t) && n < |t| && i.dev != NO_DEV && Find(t, i.dev, i.ino).None?
    ensures TableOk(t[n := i])
  {
    forall m | 0 <= m < |t| ensures (t[m].dev, t[m].ino) != (i.dev, i.ino) {
      NotFound(t, i.dev, i.ino, m);
    }
  }

  lemma {:induction false} FreshRecords(w: Fs, t: seq<Inode>, w': Fs, n: nat, i: Inode)
    requires TableInv(w, t) && n < |t| && TableOk(t[n := i]) && Inv(w')
    requires SameButStamps(w.supers, w'.supers) && Logical(w') == Logical(w)
    requires i.dev != NO_DEV && ReadyIno(w, i.dev, i.ino) && GeoOf(w, i.dev).inodeSize <= INODE_BYTES
    requires i.count == 1 && i.raw[..GeoOf(w, i.dev).inodeSize] == Visible(w, i.dev, i.ino)
    ensures TableInv(w', t[n := i])
  {
    SameDisk(w, w', i.dev, i.ino);
    var t' := t[n := i];
    forall m | 0 <= m < |t'| ensures RecordOk(w', t'[m]) {
      if m != n && t[m].dev != NO_DEV {
        SameDisk(w, w', t[m].dev, t[m].ino);
        RecordKept(w, w', t[m]);
      }
    }
  }

  /** Taking over a slot in nobody's use, as far as some inode is concerned. */
  lemma {:induction false} FreshView(w: Fs, t: seq<Inode>, w': Fs, n: nat, i: Inode, dev: Dev, ino: u32)
    requires TableInv(w, t) && n < |t| && t[n].count == 0 && TableOk(t[n := i]) && dev != NO_DEV
    requires SameButStamps(w.supers, w'.supers) && Logical(w') == Logical(w)
    requires i.dev != NO_DEV && ReadyIno(w, i.dev, i.ino) && GeoOf(w, i.dev).inodeSize <= INODE_BYTES
    requires Find(t, i.dev, i.ino).None? && i.raw[..GeoOf(w, i.dev).inodeSize] == Visible(w, i.dev, i.ino)
    ensures SameView(w, t, w', t[n := i], dev, ino)
  {
    if ReadyIno(w, dev, ino) && GeoOf(w, dev).inodeSize <= INODE_BYTES {
      SameDisk(w, w', dev, ino);
      hide Inv, ReadyIno, Visible, Logical, SameButStamps;
      if (dev, ino) == (i.dev, i.ino) {
        ViewIs(w', t[n := i], n);
      } else if (dev, ino) == (t[n].dev, t[n].ino) {
        ViewIs(w, t, n);
        assert RecordOk(w, t[n]);
        if Find(t[n := i], dev, ino).Some? {
          var m := Find(t[n := i], dev, ino).value;
          FoundIs(t, dev, ino, m);
        }
      } else {
        ReplaceView(w, t, w', n, i, dev, ino);
      }
    }
  }
}
