/** Inodes on the logical disk: where they are, and what reading and writing them does. */
module InodeProofs {
  import opened Config
  import opened Bytes
  import opened Device
  import opened Superblock
  import opened Cache
  import opened CacheProofs
  import opened Placement
  import opened Inodes

  type Disk = imap<Key, BlockData>

  // ----- Inodes of a plain disk -----

  /** An inode's block is on the disk. */
  ghost predicate InodeOnDisk(d: Disk, s: Geometry, dev: Dev, ino: u32)
    requires Key(dev, GROUP_BLOCK) in d && Divisible(s)
  {
    Group(s, ino) < MAX_GROUPS ==> Key(dev, BlkOf(s, d[Key(dev, GROUP_BLOCK)], ino)) in d
  }

  /** The device is one whose inodes the geometry `s` and the group block locate within it. */
  ghost predicate DeviceOk(d: Disk, s: Geometry, dev: Dev) {
    && Key(dev, GROUP_BLOCK) in d && LayoutOk(s, d[Key(dev, GROUP_BLOCK)])
    && forall ino: u32 {:trigger InodeOnDisk(d, s, dev, ino)} :: ValidIno(s, ino) ==> InodeOnDisk(d, s, dev, ino)
  }

  ghost function PlaceOf(d: Disk, s: Geometry, dev: Dev, ino: u32): (p: Place)
    requires DeviceOk(d, s, dev) && ValidIno(s, ino)
    ensures Key(dev, p.blk) in d && p.blk != GROUP_BLOCK && p.offset + s.inodeSize <= BLOCK_SIZE
  {
    PlaceInBounds(s, d[Key(dev, GROUP_BLOCK)], ino);
    assert InodeOnDisk(d, s, dev, ino);
    Locate(s, d[Key(dev, GROUP_BLOCK)], ino)
  }

  /** The bytes of an inode. */
  ghost function InodeBytes(d: Disk, s: Geometry, dev: Dev, ino: u32): (bytes: seq<byte>)
    requires DeviceOk(d, s, dev) && ValidIno(s, ino)
    ensures |bytes| == s.inodeSize
  {
    var p := PlaceOf(d, s, dev, ino);
    At(d[Key(dev, p.blk)], p.offset, s.inodeSize)
  }

  /** The disk with other bytes for an inode. */
  ghost function WithInode(d: Disk, s: Geometry, dev: Dev, ino: u32, bytes: seq<byte>): Disk
    requires DeviceOk(d, s, dev) && ValidIno(s, ino) && |bytes| == s.inodeSize
  {
    var p := PlaceOf(d, s, dev, ino);
    d[Key(dev, p.blk) := Splice(d[Key(dev, p.blk)], p.offset, bytes)]
  }

  /** Equal inode tables place every inode alike. */
  lemma {:induction false} TablesPlace(d: Disk, d': Disk, s: Geometry, dev: Dev, ino: u32)
    requires DeviceOk(d, s, dev) && ValidIno(s, ino) && d'.Keys == d.Keys
    requires SameTables(d[Key(dev, GROUP_BLOCK)], d'[Key(dev, GROUP_BLOCK)])
    ensures DeviceOk(d', s, dev) && PlaceOf(d', s, dev, ino) == PlaceOf(d, s, dev, ino)
  {
    hide LayoutOk, TableOf, Group, Index, Quot, Rem, ToLong;
    SameLayout(s, d[Key(dev, GROUP_BLOCK)], d'[Key(dev, GROUP_BLOCK)]);
    forall ino2: u32 | ValidIno(s, ino2) ensures InodeOnDisk(d', s, dev, ino2) {
      assert InodeOnDisk(d, s, dev, ino2);
    }
    PlaceInBounds(s, d[Key(dev, GROUP_BLOCK)], ino);
  }

  /** Changing one inode keeps every device well formed, and reads back. */
  lemma {:induction false} WriteInodeReads(d: Disk, s: Geometry, dev: Dev, ino: u32, bytes: seq<byte>)
    requires DeviceOk(d, s, dev) && ValidIno(s, ino) && |bytes| == s.inodeSize
    ensures var d' := WithInode(d, s, dev, ino, bytes);
      && DeviceOk(d', s, dev) && InodeBytes(d', s, dev, ino) == bytes
      && PlaceOf(d', s, dev, ino) == PlaceOf(d, s, dev, ino)
  {
    hide LayoutOk, Locate, Splice, DeviceOk, TableOf;
    TablesPlace(d, WithInode(d, s, dev, ino, bytes), s, dev, ino);
  }

  /** Changing one inode leaves the bytes of every other inode, on any device, alone. */
  lemma {:induction false} WriteInodeElsewhere(
    d: Disk, s: Geometry, dev: Dev, ino: u32, bytes: seq<byte>, s2: Geometry, dev2: Dev, ino2: u32)
    requires DeviceOk(d, s, dev) && ValidIno(s, ino) && |bytes| == s.inodeSize
    requires DeviceOk(d, s2, dev2) && ValidIno(s2, ino2)
    requires dev2 == dev ==> s2 == s && ino2 != ino
    ensures var d' := WithInode(d, s, dev, ino, bytes);
      && DeviceOk(d', s2, dev2) && InodeBytes(d', s2, dev2, ino2) == InodeBytes(d, s2, dev2, ino2)
      && PlaceOf(d', s2, dev2, ino2) == PlaceOf(d, s2, dev2, ino2)
  {
    var p, p2 := PlaceOf(d, s, dev, ino), PlaceOf(d, s2, dev2, ino2);
    if dev2 == dev {
      PlacesDisjoint(s, d[Key(dev, GROUP_BLOCK)], ino, ino2);
    }
    hide LayoutOk, Locate, DeviceOk, TableOf, Splice;
    TablesPlace(d, WithInode(d, s, dev, ino, bytes), s2, dev2, ino2);
    if dev2 == dev && p2.blk == p.blk {
      SpliceMisses(d[Key(dev, p.blk)], p.offset, bytes, p2.offset, p2.offset + s.inodeSize);
    }
  }

  // ----- Inodes through the cache -----

  /** A mounted, well-formed device. */
  ghost predicate Ready(w: Fs, dev: Dev) {
    SuperGet(w.supers, dev).Some? && DeviceOk(Logical(w), GeoOf(w, dev), dev)
  }

  ghost predicate ReadyIno(w: Fs, dev: Dev, ino: u32) {
    Ready(w, dev) && ValidIno(GeoOf(w, dev), ino)
  }

  /** The bytes of an inode, as anyone sees them through the cache. */
  ghost function Visible(w: Fs, dev: Dev, ino: u32): seq<byte>
    requires ReadyIno(w, dev, ino)
  {
    InodeBytes(Logical(w), GeoOf(w, dev), dev, ino)
  }

  lemma {:induction false} ReadyLocatable(w: Fs, dev: Dev, ino: u32)
    requires ReadyIno(w, dev, ino)
    ensures Locatable(w, dev, ino)
  {
    PlaceInBounds(GeoOf(w, dev), Logical(w)[Key(dev, GROUP_BLOCK)], ino);
  }

  /** Stamps and an unchanged logical disk keep what is visible of every inode. */
  lemma {:induction false} SameDiskSameInodes(w: Fs, w': Fs, dev: Dev)
    requires SameButStamps(w.supers, w'.supers) && Logical(w') == Logical(w) && Ready(w, dev)
    ensures Ready(w', dev)
    ensures forall ino: u32 :: ReadyIno(w, dev, ino) <==> ReadyIno(w', dev, ino)
    ensures forall ino: u32 :: ReadyIno(w, dev, ino) ==> Visible(w', dev, ino) == Visible(w, dev, ino)
  {
    var n := SuperGet(w.supers, dev).value;
    SameSlot(w.supers, w'.supers, dev);
    LayoutKept(w.supers[n], w'.supers[n]);
  }

  // ----- Borrowing a block: get, perhaps write, put -----

  /** Slots in use keep block and count; slots in nobody's use stay so. */
  ghost predicate NetZero(w: Fs, w': Fs) {
    && |w'.slots| == |w.slots|
    && forall q :: 0 <= q < |w.slots| ==>
         if w.slots[q].count == 0 then w'.slots[q].count == 0
         else w'.slots[q].Key() == w.slots[q].Key() && w'.slots[q].count == w.slots[q].count
  }

  lemma {:induction false} NetZeroComposes(w: Fs, w1: Fs, w2: Fs)
    requires NetZero(w, w1) && NetZero(w1, w2)
    ensures NetZero(w, w2)
  {}

  /** Getting a block, perhaps writing to it, and putting it back. */
  ghost function Borrow(w: Fs, k: Key, write: Option<(nat, seq<byte>)>, robust: Robust): Option<Fs>
    requires write.Some? ==> write.value.0 + |write.value.1| <= BLOCK_SIZE
  {
    match Get(w, k)
    case None => None
    case Some((w1, p)) =>
      var w2 := if write.Some? then Write(w1, p, write.value.0, write.value.1) else w1;
      Some(Put(w2, p, true, robust))
  }

  /** The logical disk after a borrower's write. */
  ghost function Written(d: Disk, k: Key, write: Option<(nat, seq<byte>)>): Disk
    requires write.Some? ==> write.value.0 + |write.value.1| <= BLOCK_SIZE
  {
    if write.Some? && k in d then d[k := Splice(d[k], write.value.0, write.value.1)] else d
  }

  /** Borrowing a block changes the logical disk by the write, if any, and holds nothing. */
  lemma {:induction false} BorrowKeeps(w: Fs, k: Key, write: Option<(nat, seq<byte>)>, robust: Robust)
    requires write.Some? ==> write.value.0 + |write.value.1| <= BLOCK_SIZE
    requires Inv(w) && ValidKey(k) && Borrow(w, k, write, robust).Some? && SuperGet(w.supers, k.dev).Some?
    ensures var w' := Borrow(w, k, write, robust).value;
      && Inv(w') && Logical(w') == Written(Logical(w), k, write)
      && SameButStamps(w.supers, w'.supers) && forall k2 :: Addressable(w'.io, k2) == Addressable(w.io, k2)
  {
    var (w1, p) := Get(w, k).value;
    GetKeeps(w, k);
    GetSlots(w, k);
    SameSlot(w.supers, w1.supers, k.dev);
    assert w1.slots[p].dev == k.dev && w1.slots[p].Key() == k && k.dev != NO_DEV;
    ShownBySlot(w1, p, k);
    assert Addressable(w1.io, k) <==> k in Logical(w1);
    var w2 := if write.Some? then Write(w1, p, write.value.0, write.value.1) else w1;
    if write.Some? {
      WriteKeeps(w1, p, write.value.0, write.value.1);
    }
    assert w2.slots[p].dev == k.dev && |w2.slots| == |w1.slots| && w2.supers == w1.supers && w2.io == w1.io;
    hide *;
    PutKeeps(w2, p, true, robust);
    StampsCompose(w.supers, w1.supers, Put(w2, p, true, robust).supers);
  }

  lemma {:induction false} BorrowNetZero(w: Fs, k: Key, write: Option<(nat, seq<byte>)>, robust: Robust)
    requires write.Some? ==> write.value.0 + |write.value.1| <= BLOCK_SIZE
    requires Inv(w) && ValidKey(k) && Borrow(w, k, write, robust).Some?
    ensures NetZero(w, Borrow(w, k, write, robust).value)
  {
    var (w1, p) := Get(w, k).value;
    GotSlots(w, k);
    var w2 := if write.Some? then Write(w1, p, write.value.0, write.value.1) else w1;
    assert Borrow(w, k, write, robust).value == Put(w2, p, true, robust);
    assert w2.slots == w1.slots[p := w2.slots[p]];
    assert w2.slots[p].Key() == w1.slots[p].Key() && w2.slots[p].count == w1.slots[p].count;
    hide Get, Put, Inv, Borrow, Write;
    PutSlots(w2, p, robust);
  }

  /** A slot in use keeps its bytes through a borrow, unless the borrower writes to its block. */
  lemma {:induction false} BorrowBytes(
    w: Fs, k: Key, write: Option<(nat, seq<byte>)>, robust: Robust, q: nat)
    requires write.Some? ==> write.value.0 + |write.value.1| <= BLOCK_SIZE
    requires Inv(w) && ValidKey(k) && Borrow(w, k, write, robust).Some? && q < |w.slots| && w.slots[q].count != 0
    ensures var w', s := Borrow(w, k, write, robust).value, w.slots[q];
      |w'.slots| == |w.slots| && w'.slots[q].data ==
        if write.Some? && s.Key() == k then Splice(s.data, write.value.0, write.value.1) else s.data
  {
    var (w1, p) := Get(w, k).value;
    GotSlots(w, k);
    GetKeeps(w, k);
    BorrowNetZero(w, k, write, robust);
    var w2 := if write.Some? then Write(w1, p, write.value.0, write.value.1) else w1;
    assert Borrow(w, k, write, robust).value == Put(w2, p, true, robust);
    if w.slots[q].Key() == k {
      CachedIs(w1.slots, k, p);
      CachedIs(w1.slots, k, q);
    }
    hide Get, Put, Inv, Borrow;
    PutSlots(w2, p, robust);
  }

  lemma {:induction false} GotSlots(w: Fs, k: Key)
    requires Inv(w) && ValidKey(k) && Get(w, k).Some?
    ensures var (w1, p) := Get(w, k).value;
      && (forall q :: 0 <= q < |w.slots| && q != p ==> w1.slots[q] == w.slots[q])
      && Dec8(w1.slots[p].count) == w.slots[p].count
      && (w.slots[p].count != 0 ==> w1.slots[p].Key() == w.slots[p].Key() && w1.slots[p].data == w.slots[p].data)
  {
    GetSlots(w, k);
  }

  lemma {:induction false} PutSlots(w: Fs, p: nat, robust: Robust)
    requires p < |w.slots|
    ensures var w' := Put(w, p, true, robust);
      && |w'.slots| == |w.slots| && (forall q :: 0 <= q < |w.slots| && q != p ==> w'.slots[q] == w.slots[q])
      && w'.slots[p].Key() == w.slots[p].Key() && w'.slots[p].count == Dec8(w.slots[p].count)
      && w'.slots[p].data == w.slots[p].data
  {}

  // ----- group_find and inode_rw -----

  /** group_find borrows the group block, and finds the inode where the logical disk has it. */
  lemma {:induction false} GroupFindBorrows(w: Fs, dev: Dev, ino: u32, robust: Robust)
    requires Inv(w) && ReadyIno(w, dev, ino)
    ensures Locatable(w, dev, ino) && ValidKey(Key(dev, GROUP_BLOCK))
    ensures var r := GroupFind(w, dev, ino, robust);
      match Borrow(w, Key(dev, GROUP_BLOCK), None, robust)
      case None => r.None?
      case Some(w') => r == Some((w', PlaceOf(Logical(w), GeoOf(w, dev), dev, ino)))
  {
    var k := Key(dev, GROUP_BLOCK);
    ReadyLocatable(w, dev, ino);
    assert Addressable(w.io, k) && ValidKey(k);
    hide Locate, LayoutOk, Put;
    if Get(w, k).Some? {
      GetKeeps(w, k);
    }
  }

  /** What inode_rw does to the disk below and to the inode record. */
  ghost function DiskAfter(w: Fs, i: Inode, read: bool): Disk
    requires ReadyIno(w, i.dev, i.ino) && GeoOf(w, i.dev).inodeSize <= INODE_BYTES
  {
    var g := GeoOf(w, i.dev);
    if !i.dirty || read then Logical(w) else WithInode(Logical(w), g, i.dev, i.ino, i.raw[..g.inodeSize])
  }

  ghost function RecordAfter(w: Fs, i: Inode, read: bool): Inode
    requires ReadyIno(w, i.dev, i.ino) && GeoOf(w, i.dev).inodeSize <= INODE_BYTES
  {
    if !i.dirty then i
    else if read then Loaded(i, Visible(w, i.dev, i.ino))
    else i.(dirty := false)
  }

  /** The write that inode_rw borrows the inode's block for. */
  ghost function InodeWrite(w: Fs, i: Inode, read: bool): Option<(nat, seq<byte>)>
    requires ReadyIno(w, i.dev, i.ino) && GeoOf(w, i.dev).inodeSize <= INODE_BYTES
  {
    var g := GeoOf(w, i.dev);
    if read then None else Some((PlaceOf(Logical(w), g, i.dev, i.ino).offset, i.raw[..g.inodeSize]))
  }

  ghost function InodeKey(w: Fs, dev: Dev, ino: u32): Key
    requires ReadyIno(w, dev, ino)
  {
    Key(dev, PlaceOf(Logical(w), GeoOf(w, dev), dev, ino).blk)
  }

  lemma {:induction false} ReadySize(w: Fs, dev: Dev)
    requires Ready(w, dev)
    ensures GeoOf(w, dev).inodeSize <= INODE_BYTES
  {}

  lemma {:induction false} ReadyInoSize(w: Fs, dev: Dev, ino: u32)
    requires ReadyIno(w, dev, ino)
    ensures SuperGet(w.supers, dev).Some? && GeoOf(w, dev).inodeSize <= INODE_BYTES
  {}

  lemma {:induction false} CleanInodeRw(w: Fs, i: Inode, read: bool, robust: Robust)
    requires !i.dirty
    ensures InodeRw(w, i, read, robust) == Some((w, i))
  {}

  /** The second half of inode_rw, once the inode's place is known. */
  lemma {:induction false} InodeRwSecond(w: Fs, i: Inode, read: bool, robust: Robust, w1: Fs, place: Place)
    requires Locatable(w, i.dev, i.ino) && i.dirty && GroupFind(w, i.dev, i.ino, robust) == Some((w1, place))
    ensures var size := GeoOf(w, i.dev).inodeSize;
      var r := InodeRw(w, i, read, robust);
      match Borrow(w1, Key(i.dev, place.blk), if read then None else Some((place.offset, i.raw[..size])), robust)
      case None => r.None?
      case Some(w') =>
        && r.Some? && r.value.0 == w'
        && (read ==> var (w2, p) := Get(w1, Key(i.dev, place.blk)).value;
                     r.value.1 == Loaded(i, At(w2.slots[p].data, place.offset, size)))
        && (!read ==> r.value.1 == i.(dirty := false))
  {
    hide GroupFind, Get, Put, Loaded, At, Locatable;
  }

  /** inode_rw on a dirty record borrows the group block, then the inode's block. */
  lemma {:induction false} InodeRwBorrows(w: Fs, i: Inode, read: bool, robust: Robust)
    requires Inv(w) && ReadyIno(w, i.dev, i.ino) && GeoOf(w, i.dev).inodeSize <= INODE_BYTES && i.dirty
    ensures Locatable(w, i.dev, i.ino) && ValidKey(InodeKey(w, i.dev, i.ino))
    ensures var r := InodeRw(w, i, read, robust);
      match Borrow(w, Key(i.dev, GROUP_BLOCK), None, robust)
      case None => r.None?
      case Some(w1) =>
        match Borrow(w1, InodeKey(w, i.dev, i.ino), InodeWrite(w, i, read), robust)
        case None => r.None?
        case Some(w') => r.Some? && r.value.0 == w'
  {
    var k1, k2 := Key(i.dev, GROUP_BLOCK), InodeKey(w, i.dev, i.ino);
    GroupFindBorrows(w, i.dev, i.ino, robust);
    InAddressable(w, k2);
    if Borrow(w, k1, None, robust).None? {
      hide Borrow, GroupFind;
    } else {
      var w1 := Borrow(w, k1, None, robust).value;
      InodeRwSecond(w, i, read, robust, w1, PlaceOf(Logical(w), GeoOf(w, i.dev), i.dev, i.ino));
      hide Borrow, GroupFind, InodeRw, PlaceOf, Locatable;
    }
  }

  /** The record that inode_rw leaves. */
  lemma {:induction false} InodeRwRecord(w: Fs, i: Inode, read: bool, robust: Robust)
    requires Inv(w) && ReadyIno(w, i.dev, i.ino) && GeoOf(w, i.dev).inodeSize <= INODE_BYTES && i.dirty
    requires Locatable(w, i.dev, i.ino) && InodeRw(w, i, read, robust).Some?
    ensures InodeRw(w, i, read, robust).value.1 == RecordAfter(w, i, read)
  {
    var k1, k2 := Key(i.dev, GROUP_BLOCK), InodeKey(w, i.dev, i.ino);
    var place := PlaceOf(Logical(w), GeoOf(w, i.dev), i.dev, i.ino);
    VisibleIs(w, i.dev, i.ino);
    RecordAfterIs(w, i, read);
    GroupFindBorrows(w, i.dev, i.ino, robust);
    hide *;
    InodeRwBorrows(w, i, read, robust);
    var w1 := Borrow(w, k1, None, robust).value;
    BorrowShows(w, k1, robust, k2);
    InodeRwSecond(w, i, read, robust, w1, place);
  }

  lemma {:induction false} VisibleIs(w: Fs, dev: Dev, ino: u32)
    requires ReadyIno(w, dev, ino)
    ensures var k, place := InodeKey(w, dev, ino), PlaceOf(Logical(w), GeoOf(w, dev), dev, ino);
      && k == Key(dev, place.blk) && k in Logical(w) && place.offset + GeoOf(w, dev).inodeSize <= BLOCK_SIZE
      && Visible(w, dev, ino) == At(Logical(w)[k], place.offset, GeoOf(w, dev).inodeSize)
      && SuperGet(w.supers, dev).Some?
  {
    hide DeviceOk, PlaceOf, Logical;
  }

  lemma {:induction false} RecordAfterIs(w: Fs, i: Inode, read: bool)
    requires ReadyIno(w, i.dev, i.ino) && GeoOf(w, i.dev).inodeSize <= INODE_BYTES && i.dirty
    ensures RecordAfter(w, i, read) ==
      if read then Loaded(i, Visible(w, i.dev, i.ino)) else i.(dirty := false)
  {
    hide DeviceOk, PlaceOf, Logical, Visible;
  }

  lemma {:induction false} InAddressable(w: Fs, k: Key)
    requires k in Logical(w)
    ensures Addressable(w.io, k) && ValidKey(k)
  {}

  /** After a block is borrowed without writing, a get still shows every block's contents. */
  lemma {:induction false} BorrowShows(w: Fs, k: Key, robust: Robust, k2: Key)
    requires Inv(w) && ValidKey(k) && SuperGet(w.supers, k.dev).Some? && Borrow(w, k, None, robust).Some?
    requires k2 in Logical(w)
    ensures var w1 := Borrow(w, k, None, robust).value;
      Get(w1, k2).Some? ==> Get(w1, k2).value.0.slots[Get(w1, k2).value.1].data == Logical(w)[k2]
  {
    var w1 := Borrow(w, k, None, robust).value;
    InAddressable(w, k2);
    BorrowKeeps(w, k, None, robust);
    assert Written(Logical(w), k, None) == Logical(w);
    hide Borrow, Get;
    if Get(w1, k2).Some? {
      GetKeeps(w1, k2);
    }
  }

  /** A slot in use keeps its bytes through inode_rw, unless the inode is written to its block. */
  lemma {:induction false} InodeRwBytes(w: Fs, i: Inode, read: bool, robust: Robust, q: nat)
    requires Inv(w) && ReadyIno(w, i.dev, i.ino) && GeoOf(w, i.dev).inodeSize <= INODE_BYTES
    requires Locatable(w, i.dev, i.ino) && InodeRw(w, i, read, robust).Some?
    requires q < |w.slots| && w.slots[q].count != 0
    ensures var w', s, write := InodeRw(w, i, read, robust).value.0, w.slots[q], InodeWrite(w, i, read);
      |w'.slots| == |w.slots| && w'.slots[q].data ==
        if i.dirty && write.Some? && s.Key() == InodeKey(w, i.dev, i.ino)
        then Splice(s.data, write.value.0, write.value.1) else s.data
  {
    if i.dirty {
      var k1, k2, write := Key(i.dev, GROUP_BLOCK), InodeKey(w, i.dev, i.ino), InodeWrite(w, i, read);
      InodeRwBorrows(w, i, read, robust);
      GroupFindBorrows(w, i.dev, i.ino, robust);
      hide *;
      var w1 := Borrow(w, k1, None, robust).value;
      BorrowKeeps(w, k1, None, robust);
      BorrowNetZero(w, k1, None, robust);
      NetZeroAt(w, w1, q);
      BorrowBytes(w, k1, None, robust, q);
      BorrowBytes(w1, k2, write, robust, q);
    }
  }

  lemma {:induction false} NetZeroAt(w: Fs, w': Fs, q: nat)
    requires NetZero(w, w') && q < |w.slots| && w.slots[q].count != 0
    ensures |w'.slots| == |w.slots| && w'.slots[q].Key() == w.slots[q].Key() && w'.slots[q].count == w.slots[q].count
  {}

  /** inode_rw copies the inode between its record and the logical disk, changes nothing else
      there, and leaves every slot's use as it found it. */
  lemma {:induction false} InodeRwKeeps(w: Fs, i: Inode, read: bool, robust: Robust)
    requires Inv(w) && ReadyIno(w, i.dev, i.ino)
    ensures Locatable(w, i.dev, i.ino) && GeoOf(w, i.dev).inodeSize <= INODE_BYTES
    ensures var r := InodeRw(w, i, read, robust);
      r.Some? ==>
        && Inv(r.value.0) && SameButStamps(w.supers, r.value.0.supers) && NetZero(w, r.value.0)
        && Logical(r.value.0) == DiskAfter(w, i, read) && r.value.1 == RecordAfter(w, i, read)
  {
    ReadySize(w, i.dev);
    ReadyLocatable(w, i.dev, i.ino);
    if i.dirty && InodeRw(w, i, read, robust).Some? {
      var k1, k2, write := Key(i.dev, GROUP_BLOCK), InodeKey(w, i.dev, i.ino), InodeWrite(w, i, read);
      var w' := InodeRw(w, i, read, robust).value.0;
      assert DiskAfter(w, i, read) == Written(Logical(w), k2, write);
      InodeRwBorrows(w, i, read, robust);
      InodeRwRecord(w, i, read, robust);
      GroupFindBorrows(w, i.dev, i.ino, robust);
      var w1 := Borrow(w, k1, None, robust).value;
      assert Written(Logical(w), k1, None) == Logical(w);
      hide *;
      BorrowKeeps(w, k1, None, robust);
      BorrowNetZero(w, k1, None, robust);
      SameSlot(w.supers, w1.supers, i.dev);
      assert k2.dev == i.dev;
      BorrowKeeps(w1, k2, write, robust);
      BorrowNetZero(w1, k2, write, robust);
      StampsCompose(w.supers, w1.supers, w'.supers);
      NetZeroComposes(w, w1, w');
    }
  }
}
