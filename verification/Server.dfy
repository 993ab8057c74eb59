/** The file-system server: its tables and the operations that update them in place, each proved
    to do what the transition system over values does. */
module Server {
  import opened Config
  import opened Bytes
  import opened Device
  import opened Superblock
  import opened Ring
  import opened Cache
  import opened CacheProofs
  import opened Placement
  import opened Inodes
  import opened InodeProofs
  import opened InodeRuns
  import opened TableSteps
  import opened Durability
  import opened Mounting
  import opened Steps

  class FileServer {
    const robust: Robust
    /** The block cache; the links between its slots are kept by the ring. */
    const block: array<Slot>
    const ring: LruRing
    const inode: array<Inode>
    const supers: array<Super>
    const blockDriver: array<int>
    const charDriver: array<int>
    /** The bytes that block drivers keep. */
    var images: map<Target, seq<byte>>
    var clock: Clock
    var errCode: nat
    /** The root and the working directory, as slots of the inode table. */
    var rootDir: Option<nat>
    var workDir: Option<nat>

    ghost predicate Valid()
      reads this, ring, ring.prev, ring.next
    {
      && ring.Valid() && ring.n == block.Length
      && blockDriver.Length == NUM_DRIVERS && charDriver.Length == NUM_DRIVERS && blockDriver != charDriver
      && inode.Length == NUM_INODES && supers.Length == NUM_SUPERS
    }

    /** The state as a value. */
    ghost function View(): Fs
      reads this, block, ring, supers, blockDriver, charDriver
    {
      Fs(block[..], ring.order, Io(blockDriver[..], charDriver[..], images), supers[..], clock, errCode)
    }

    /** block_init, inode_init, super_init and dev_init. */
    constructor (robust: Robust, images: map<Target, seq<byte>>, clock: Clock)
      ensures Valid() && View() == ColdFs(images, clock) && inode[..] == ColdInodes()
      ensures ColdStart(View(), inode[..]) && this.robust == robust && rootDir == None && workDir == None
      ensures fresh(block) && fresh(ring) && fresh(ring.prev) && fresh(ring.next) && fresh(inode) && fresh(supers)
      ensures fresh(blockDriver) && fresh(charDriver)
    {
      hide ColdStart, LruRing.Valid;
      ColdIsCold(images, clock);
      this.robust := robust;
      this.images := images;
      this.clock := clock;
      errCode := 0;
      rootDir, workDir := None, None;
      block := new Slot[NUM_BLOCKS](_ => Slot(NO_DEV, 0, 0, false, seq(BLOCK_SIZE, _ => 0)));
      ring := new LruRing(NUM_BLOCKS);
      inode := new Inode[NUM_INODES](_ => Inode(seq(INODE_BYTES, _ => 0), NO_DEV, 0, 0, false, false));
      supers := new Super[NUM_SUPERS](_ => Super(seq(SUPER_BYTES, _ => 0), NO_DEV, 0, None, None, false));
      blockDriver := new int[NUM_DRIVERS](_ => NO_PID);
      charDriver := new int[NUM_DRIVERS](_ => NO_PID);
      new;
      assert block[..] == ColdFs(images, clock).slots && supers[..] == ColdFs(images, clock).supers;
      assert blockDriver[..] == charDriver[..] == seq(NUM_DRIVERS, _ => NO_PID);
    }

    /** Reads from, or writes to, a block device. */
    method DevRw(dev: Dev, read: bool, off: int, size: nat, buf: seq<byte>) returns (ret: int, out: seq<byte>)
      requires Valid() && Major(dev) as int < NUM_DRIVERS && |buf| == size
      modifies this`images, this`errCode
      ensures var io := old(View().io);
        if read then
          && images == old(images)
          && match DevRead(io, dev, off, size)
             case Done(bytes) => out == bytes && ret == size && errCode == old(errCode)
             case Failed(e) => out == buf && ret + e == 0 && errCode == e
        else
          && out == buf
          && match DevWrite(io, dev, off, buf)
             case Done(io') => View().io == io' && ret == size && errCode == old(errCode)
             case Failed(e) => images == old(images) && ret + e == 0 && errCode == e
      ensures DriverIndex(dev) < NUM_DRIVERS
      ensures
        var pid, was := blockDriver[DriverIndex(dev)], old(images);
        var t := Target(pid, Unit(dev));
        if pid == NO_PID || t !in was then
          ret == -ENXIO && errCode == ENXIO && images == was && out == buf
        else if off < 0 || |was[t]| < off + size then
          ret == -EIO && errCode == EIO && images == was && out == buf
        else
          && ret == size && errCode == old(errCode)
          && if read then images == was && out == was[t][off..off + size]
             else out == buf && WrittenAt(was, images, t, off, buf)
    {
      hide Major, Minor, DriverIndex, Unit, LruRing.Valid, Splice, DevRead, DevWrite, WrittenAt;
      NumberBytes(dev);
      TransferMeans(View().io, dev, off, buf);
      out := buf;
      var maj, min := Major(dev), Minor(dev);
      var pid := blockDriver[maj as int];
      if pid == NO_PID {
        errCode := ENXIO;
        return -ENXIO, buf;
      }
      // The driver's side of the exchange: it serves the whole range, or refuses.
      var target := Target(pid, min);
      if target !in images {
        errCode := ENXIO;
        return -ENXIO, buf;
      }
      if off < 0 || |images[target]| < off + size {
        errCode := EIO;
        return -EIO, buf;
      }
      if read {
        out := images[target][off..off + size];
      } else {
        images := images[target := Splice(images[target], off, buf)];
      }
      ret := size;
    }

    /** Searches the superblock table. */
    method FindSuper(dev: Dev) returns (r: Option<nat>)
      requires Valid()
      ensures r == SuperGet(supers[..], dev) && (r.Some? ==> r.value < supers.Length)
    {
      for i := 0 to supers.Length
        invariant SuperFrom(supers[..], dev, 0) == SuperFrom(supers[..], dev, i)
      {
        if supers[i].dev == dev {
          return Some(i);
        }
      }
      return None;
    }

    /** Reads a dirty block from its device into the cache, or writes it from the cache to its device. */
    method RwBlock(p: nat, read: bool)
      requires Valid() && p < block.Length
      requires block[p].dirty ==> Major(block[p].dev) as int < NUM_DRIVERS
      requires block[p].dirty && !read ==> SuperGet(supers[..], block[p].dev).Some?
      modifies this`images, this`clock, this`errCode, block, supers
      ensures Valid() && View() == BlockRw(old(View()), p, read)
    {
      ghost var w := View();
      var s := block[p];
      if !s.dirty {
        return;
      }
      var ret, buf := DevRw(s.dev, read, BlockOff(s.blk), BLOCK_SIZE, s.data);
      block[p] := s.(data := buf, dirty := false);
      if !read {
        var i := FindSuper(s.dev);
        supers[i.value] := supers[i.value].Stamped(clock.Now());
        clock := clock.After();
      }
    }

    /** Searches the cache for a block, from the most recently used end; `visited` are the slots looked at. */
    method SearchBlock(dev: Dev, blk: int) returns (r: Option<nat>, ghost visited: seq<nat>)
      requires Valid() && Unique(block[..]) && dev != NO_DEV
      ensures r == Cached(block[..], Key(dev, blk))
      ensures visited <= Backwards(ring.order) && Once(visited)
      ensures if r.Some? then visited != [] && visited[|visited| - 1] == r.value else Visits(visited, ring.n)
    {
      hide Linked, Unique, Permutation, Once, Visits, Backwards;
      ghost var k, walk := Key(dev, blk), Backwards(ring.order);
      OrderOnce(ring.order, ring.n);
      BackwardsOnce(ring.order, ring.n);
      ring.LinksAt(0);
      var p := ring.prev[ring.lru];
      ghost var i := ring.n - 1;
      visited := [p];
      while true
        invariant 0 <= i < ring.n && p == ring.order[i]
        invariant forall j :: i < j < ring.n ==> block[ring.order[j]].Key() != k
        invariant visited == walk[..ring.n - i]
        decreases i
      {
        if block[p].dev == dev && block[p].blk == blk {
          CachedIs(block[..], k, p);
          OncePrefix(walk, visited);
          return Some(p), visited;
        }
        ring.LinksAt(i);
        p := ring.prev[p];
        if p == ring.prev[ring.lru] {
          break;
        }
        i := i - 1;
        visited := visited + [p];
      }
      NoneCached(block[..], ring.order, k);
      assert visited == walk;
      return None, visited;
    }

    /** Searches the cache for a slot that nobody uses, from the least recently used end; `visited`
        are the slots looked at. */
    method SearchFree() returns (r: Option<nat>, ghost visited: seq<nat>)
      requires Valid()
      ensures r == Victim(View())
      ensures visited <= ring.order && Once(visited)
      ensures if r.Some? then visited != [] && visited[|visited| - 1] == r.value else Visits(visited, ring.n)
    {
      hide Linked, Permutation, Once, Visits;
      OrderOnce(ring.order, ring.n);
      var p := ring.lru;
      ghost var i := 0;
      visited := [p];
      while true
        invariant 0 <= i < ring.n && p == ring.order[i]
        invariant forall j :: 0 <= j < i ==> block[ring.order[j]].count != 0
        invariant visited == ring.order[..i + 1]
        decreases ring.n - i
      {
        if block[p].count == 0 {
          VictimIs(View(), i);
          OncePrefix(ring.order, visited);
          return Some(p), visited;
        }
        ring.LinksAt(i);
        p := ring.next[p];
        if p == ring.lru {
          break;
        }
        i := i + 1;
        visited := visited + [p];
      }
      NoVictim(View());
      assert visited == ring.order;
      return None, visited;
    }

    /** Gets a block, from the cache or from its device, in the place of the least recently used
        block that nobody uses; None stands for a panic. */
    method GetBlock(dev: Dev, blk: int) returns (r: Option<nat>)
      requires Valid() && Inv(View()) && dev != NO_DEV && Major(dev) as int < NUM_DRIVERS
      modifies this`images, this`clock, this`errCode, block, supers, ring, ring.prev, ring.next
      ensures Valid()
      ensures match Get(old(View()), Key(dev, blk))
              case None => r.None? && View() == old(View())
              case Some((w, p)) => r == Some(p) && View() == w
    {
      ghost var w, k := View(), Key(dev, blk);
      assert Unique(block[..]) && w.slots == block[..];
      hide Inv, Recache, Moved, Unique, LruRing.Valid, Major;
      var found, seen := SearchBlock(dev, blk);
      if found.Some? {
        Hit(found.value);
        return found;
      }
      var free, tried := SearchFree();
      if free.Some? {
        DirtyInTable(w, free.value);
        Reuse(free.value, dev, blk);
      }
      return free;
    }

    /** Counts one more user of a cached block. */
    method Hit(p: nat)
      requires Valid() && p < block.Length
      modifies block, ring, ring.prev, ring.next
      ensures Valid()
      ensures
        var w := old(View());
        View() == Set(w, p, w.slots[p].(count := Inc8(w.slots[p].count))).(order := Moved(w.order, p, true))
    {
      ghost var w := View();
      hide LruRing.Valid, Moved;
      block[p] := block[p].(count := Inc8(block[p].count));
      assert View() == Set(w, p, w.slots[p].(count := Inc8(w.slots[p].count)));
      ring.RecentlyUsed(p, true);
    }

    /** Evicts the block in a slot, and caches another one there. */
    method Reuse(p: nat, dev: Dev, blk: int)
      requires Valid() && p < block.Length && Major(dev) as int < NUM_DRIVERS
      requires block[p].dirty ==> Major(block[p].dev) as int < NUM_DRIVERS && SuperGet(supers[..], block[p].dev).Some?
      modifies this`images, this`clock, this`errCode, block, supers, ring, ring.prev, ring.next
      ensures Valid() && View() == Recache(old(View()), p, Key(dev, blk)).(order := Moved(old(View()).order, p, true))
    {
      ghost var w := View();
      RwBlock(p, false);
      ghost var w1 := View();
      block[p] := block[p].(dev := dev, blk := blk, count := 1, dirty := true);
      assert View() == Set(w1, p, w1.slots[p].(dev := dev, blk := blk, count := 1, dirty := true));
      RwBlock(p, true);
      RecacheOrder(w, p, Key(dev, blk));
      assert View() == Recache(w, p, Key(dev, blk));
      hide Recache, BlockRw, LruRing.Valid, Moved;
      ring.RecentlyUsed(p, true);
    }

    /** The value of the state, table by table. */
    lemma {:induction false} ViewFields()
      ensures View().slots == block[..] && View().supers == supers[..] && View().clock == clock && View().err == errCode
      ensures Valid() ==> |View().io.blockPid| == |View().io.charPid| == NUM_DRIVERS
    {}

    /** Puts a block back; the last holder's put writes it to its device, as the mode demands. */
    method PutBlock(p: Option<nat>, important: bool)
      requires Valid()
      requires p.Some? ==>
        && p.value < block.Length
        && (block[p.value].dirty ==>
              Major(block[p.value].dev) as int < NUM_DRIVERS && SuperGet(supers[..], block[p.value].dev).Some?)
      modifies this`images, this`clock, this`errCode, block, supers
      ensures Valid()
      ensures View() == if p.Some? then Put(old(View()), p.value, important, robust) else old(View())
      ensures p.Some? && (robust.Sloppy? || (robust.Sane? && !important) || old(block[p.value].count) != 1) ==>
        && images == old(images) && supers[..] == old(supers[..]) && clock == old(clock) && errCode == old(errCode)
        && block[p.value].dirty == old(block[p.value].dirty)
    {
      hide LruRing.Valid, BlockRw;
      if p.None? {
        return;
      }
      var q := p.value;
      ghost var w := View();
      block[q] := block[q].(count := Dec8(block[q].count));
      assert View() == Set(w, q, w.slots[q].(count := Dec8(w.slots[q].count)));
      if block[q].count > 0 {
        return;
      }
      match robust
      case Paranoid =>
        RwBlock(q, false);
      case Sane =>
        if important {
          RwBlock(q, false);
        }
      case Sloppy =>
    }

    /** Changes bytes of a block, as its holder, and marks it dirty. */
    method WriteBlock(p: nat, at: nat, bytes: seq<byte>)
      requires Valid() && p < block.Length && at + |bytes| <= BLOCK_SIZE
      modifies block
      ensures Valid() && View() == Write(old(View()), p, at, bytes)
    {
      var data := Memcpy(block[p].data, at, bytes, 0, |bytes|);
      assert bytes[0..0 + |bytes|] == bytes;
      block[p] := block[p].(data := data, dirty := true);
    }

    /** Writes all of a device's cached blocks to the device. */
    method SyncDevice(dev: Dev)
      requires Valid() && Inv(View())
      modifies this`images, this`clock, this`errCode, block, supers
      ensures Valid() && View() == DevSync(old(View()), dev)
    {
      hide *;
      ghost var w, which := View(), (s: Slot) => s.dev == dev;
      DevSyncIs(w, dev);
      ViewFields();
      for j := 0 to block.Length
        invariant Valid() && Inv(View()) && View().slots == block[..]
        invariant FlushFrom(View(), which, j) == FlushFrom(w, which, 0)
      {
        ViewFields();
        FlushUnfolds(View(), which, j);
        if block[j].dev == dev {
          DirtyInTable(View(), j);
          WriteBackKeeps(View(), j);
          RwBlock(j, false);
          ViewFields();
        }
      }
      FlushUnfolds(View(), which, block.Length);
    }

    /** Reinitialises all of a device's cached blocks, as the next ones to be reused. */
    method PurgeDevice(dev: Dev)
      requires Valid() && dev != NO_DEV
      modifies block, ring, ring.prev, ring.next
      ensures Valid() && View() == DevPurge(old(View()), dev)
    {
      hide *;
      ghost var w := View();
      DevPurgeIs(w, dev);
      ViewFields();
      for j := 0 to block.Length
        invariant Valid() && View().slots == block[..] && PurgeFrom(View(), dev, j) == PurgeFrom(w, dev, 0)
      {
        PurgeUnfolds(View(), dev, j);
        if block[j].dev == dev {
          PurgeSlot(j);
          ViewFields();
        }
      }
      PurgeUnfolds(View(), dev, block.Length);
    }

    /** Reinitialises a cached block, as the next one to be reused. */
    method PurgeSlot(p: nat)
      requires Valid() && p < block.Length
      modifies block, ring, ring.prev, ring.next
      ensures Valid() && View() == PurgedSlot(old(View()), p)
    {
      hide LruRing.Valid, Moved;
      block[p] := block[p].(dev := NO_DEV, blk := 0, count := 0, dirty := false);
      ring.RecentlyUsed(p, false);
    }

    /** Finds where an inode resides on its device; None stands for a panic. */
    method FindGroup(dev: Dev, ino: u32) returns (r: Option<Place>)
      requires Valid() && Inv(View()) && ValidKey(Key(dev, GROUP_BLOCK)) && Locatable(View(), dev, ino)
      modifies this`images, this`clock, this`errCode, block, supers, ring, ring.prev, ring.next
      ensures Valid()
      ensures match GroupFind(old(View()), dev, ino, robust)
              case None => r.None?
              case Some((w, place)) => r == Some(place) && View() == w
    {
      hide *;
      ghost var w := View();
      ViewFields();
      LocatableParts(w, dev, ino);
      GroupFindIs(w, dev, ino, robust);
      ValidMajor(dev, GROUP_BLOCK);
      var n := FindSuper(dev);
      var geo := supers[n.value].Geo();
      var group, index := Group(geo, ino), Index(geo, ino);
      var p := GetBlock(dev, GROUP_BLOCK);
      if p.None? {
        return None;
      }
      ghost var w1 := View();
      ViewFields();
      GetKeeps(w, Key(dev, GROUP_BLOCK));
      DirtyInTable(w1, p.value);
      var table := TableOf(block[p.value].data, group);
      PutBlock(p, true);
      var perBlock := InodesPerBlock(geo);
      LocateIs(geo, w1.slots[p.value].data, ino);
      r := Some(Place(ToLong(table + Quot(index, perBlock)), Rem(index, perBlock) * geo.inodeSize));
    }

    /** Copies an inode between its record and its block, if the record is dirty; false stands
        for a panic. */
    method RwInode(n: nat, read: bool) returns (ok: bool)
      requires Valid() && Inv(View()) && n < inode.Length
      requires inode[n].dirty ==> ReadyIno(View(), inode[n].dev, inode[n].ino)
      modifies this`images, this`clock, this`errCode, block, supers, ring, ring.prev, ring.next, inode
      ensures Valid()
      ensures old(inode[n].dirty) ==> Locatable(old(View()), old(inode[n].dev), old(inode[n].ino))
      ensures match InodeRw(old(View()), old(inode[n]), read, robust)
              case None => !ok && inode[..] == old(inode[..])
              case Some((w, i)) => ok && View() == w && inode[..] == old(inode[..])[n := i]
    {
      hide *;
      ghost var w := View();
      var i := inode[n];
      if !inode[n].dirty {
        CleanInodeRw(w, i, read, robust);
        assert inode[..] == old(inode[..])[n := i];
        return true;
      }
      ViewFields();
      ReadyLocatable(w, i.dev, i.ino);
      LocatableParts(w, i.dev, i.ino);
      ReadyInoSize(w, i.dev, i.ino);
      InodeKeyValid(w, i.dev, i.ino);
      InodeRwUnfolds(w, i, read, robust);
      GroupFindSteps(w, i.dev, i.ino, robust);
      var size := SizeOf(i.dev);
      var place := FindGroup(i.dev, i.ino);
      if place.None? {
        return false;
      }
      ghost var w1, k := View(), Key(i.dev, place.value.blk);
      ValidMajor(i.dev, place.value.blk);
      var p := GetBlock(i.dev, place.value.blk);
      if p.None? {
        return false;
      }
      ghost var w2 := View();
      ViewFields();
      GetKeeps(w1, k);
      GetShows(w1, k);
      CopyInode(n, p.value, place.value.offset, size, read);
      PutBlock(p, true);
      inode[n] := inode[n].(dirty := false);
      LoadedIsClean(i, At(w2.slots[p.value].data, place.value.offset, size));
      assert inode[..] == old(inode[..])[n := inode[n]];
      ok := true;
    }

    /** The inode size of a mounted device. */
    method SizeOf(dev: Dev) returns (size: nat)
      requires Valid() && SuperGet(supers[..], dev).Some?
      ensures size == GeoOf(View(), dev).inodeSize
    {
      var n := FindSuper(dev);
      size := supers[n.value].Geo().inodeSize;
    }

    /** Copies an inode's bytes from a held block to its record, or from the record to the block. */
    method CopyInode(n: nat, p: nat, offset: nat, size: nat, read: bool)
      requires Valid() && Inv(View()) && n < inode.Length && p < block.Length
      requires offset + size <= BLOCK_SIZE && size <= INODE_BYTES
      requires ValidKey(block[p].Key()) && SuperGet(supers[..], block[p].dev).Some?
      modifies block, inode
      ensures Valid() && Inv(View())
      ensures View() == if read then old(View()) else Write(old(View()), p, offset, old(inode[n].raw[..size]))
      ensures
        var i := old(inode[n]);
        var i' := if read then Loaded(i, At(old(block[p].data), offset, size)).(dirty := i.dirty) else i;
        inode[..] == old(inode[..])[n := i']
      ensures block[p].dirty ==> Major(block[p].dev) as int < NUM_DRIVERS && SuperGet(supers[..], block[p].dev).Some?
    {
      ghost var w := View();
      hide Inv, LruRing.Valid, SuperGet;
      if read {
        var raw := Memcpy(inode[n].raw, 0, block[p].data, offset, size);
        inode[n] := inode[n].(raw := raw);
      } else {
        WriteKeeps(w, p, offset, inode[n].raw[..size]);
        WriteBlock(p, offset, inode[n].raw[..size]);
      }
      DirtyInTable(View(), p);
    }

    /** Searches the inode table for an inode. */
    method SearchInode(dev: Dev, ino: u32) returns (r: Option<nat>)
      requires Valid()
      ensures r == Find(inode[..], dev, ino)
    {
      for n := 0 to inode.Length
        invariant forall m :: 0 <= m < n ==> !(inode[m].dev == dev && inode[m].ino == ino)
      {
        if inode[n].dev == dev && inode[n].ino == ino {
          FindIs(inode[..], dev, ino, n);
          return Some(n);
        }
      }
      FindNone(inode[..], dev, ino);
      return None;
    }

    /** Searches the inode table for a slot in nobody's use. */
    method SearchFreeInode() returns (r: Option<nat>)
      requires Valid()
      ensures r == FindFree(inode[..])
    {
      for n := 0 to inode.Length
        invariant forall m :: 0 <= m < n ==> inode[m].count != 0
      {
        if inode[n].count == 0 {
          FindFreeIs(inode[..], n);
          return Some(n);
        }
      }
      FindFreeNone(inode[..]);
      return None;
    }

    /** Finds an inode in the table, or reads it into a slot in nobody's use; None stands for a panic. */
    method GetInode(dev: Dev, ino: u32) returns (r: Option<nat>)
      requires Valid() && Inv(View()) && ReadyIno(View(), dev, ino)
      modifies this`images, this`clock, this`errCode, block, supers, ring, ring.prev, ring.next, inode
      ensures Valid() && Locatable(old(View()), dev, ino)
      ensures match InodeGet(old(View()), old(inode[..]), dev, ino, robust)
              case None => r.None?
              case Some((w, t, n)) => r == Some(n) && View() == w && inode[..] == t
    {
      hide *;
      ghost var w, t := View(), inode[..];
      ReadyLocatable(w, dev, ino);
      InodeGetUnfolds(w, t, dev, ino, robust);
      r := SearchInode(dev, ino);
      if r.Some? {
        var n := r.value;
        inode[n] := inode[n].(count := Inc8(inode[n].count));
        assert inode[..] == t[n := inode[n]];
        return;
      }
      r := SearchFreeInode();
      if r.None? {
        return;
      }
      var n := r.value;
      inode[n] := inode[n].(dev := dev, ino := ino, count := 1, mounted := false, dirty := true);
      FreshFields(t[n], dev, ino);
      assert inode[..] == t[n := inode[n]];
      var ok := RwInode(n, true);
      if !ok {
        return None;
      }
    }

    /** Gives back a reference to an inode; the last one writes the inode out. False stands for a panic. */
    method PutInode(n: Option<nat>) returns (ok: bool)
      requires Valid() && Inv(View())
      requires n.Some? ==> n.value < inode.Length && ReadyIno(View(), inode[n.value].dev, inode[n.value].ino)
      modifies this`images, this`clock, this`errCode, block, supers, ring, ring.prev, ring.next, inode
      ensures Valid()
      ensures n.Some? ==> Locatable(old(View()), old(inode[n.value].dev), old(inode[n.value].ino))
      ensures if n.None? then ok && View() == old(View()) && inode[..] == old(inode[..])
              else match InodePut(old(View()), old(inode[..]), n.value, robust)
                   case None => !ok
                   case Some((w, t)) => ok && View() == w && inode[..] == t
    {
      hide *;
      ghost var w, t := View(), inode[..];
      if n.None? {
        return true;
      }
      var m := n.value;
      var i := inode[m];
      ReadyLocatable(w, i.dev, i.ino);
      InodePutUnfolds(w, t, m, robust);
      inode[m] := inode[m].(count := Dec8(inode[m].count));
      assert inode[..] == t[m := inode[m]];
      if inode[m].count > 0 {
        return true;
      }
      assert View() == w && inode[m] == i.(count := 0);
      ViewFields();
      Release(m);
      ReleasedIs(w, i);
      TickIrrelevant(w, i.dev, i.ino);
      assert View() == LastPutClock(w, i) && inode[..][m] == LastPut(w, i);
      assert inode[..] == t[m := LastPut(w, i)];
      ok := RwInode(m, false);
    }

    /** Brings the access time of an inode that has lost its last user up to date, if it keeps one. */
    method Release(n: nat)
      requires Valid() && n < inode.Length
      modifies inode, this`clock
      ensures Valid() && View() == LastPutClock(old(View()), old(inode[n]))
      ensures inode[..] == old(inode[..])[n := Released(old(inode[n]), old(clock).Now())]
    {
      if !KeepsAccessTime(inode[n]) {
        inode[n] := inode[n].(raw := PutU32(inode[n].raw, I_ATIME, clock.Now()), dirty := true);
        clock := clock.After();
      }
    }

    /** Copies a device's superblock into the first free slot of the table. Without ok, it panicked;
        without a slot, the table is full. */
    method ReadSuper(dev: Dev) returns (ok: bool, slot: Option<nat>)
      requires Valid() && Inv(View()) && ValidKey(Key(dev, SUPER_BLOCK))
      modifies this`images, this`clock, this`errCode, block, supers, ring, ring.prev, ring.next
      ensures Valid()
      ensures match SuperRead(old(View()), dev, robust)
              case None => !ok
              case Some((w, i)) => ok && slot == i && View() == w
    {
      hide *;
      ghost var w := View();
      ViewFields();
      SuperReadUnfolds(w, dev, robust);
      ValidMajor(dev, SUPER_BLOCK);
      slot := FindSuper(NO_DEV);
      if slot.None? {
        return true, None;
      }
      var p := GetBlock(dev, SUPER_BLOCK);
      if p.None? {
        return false, None;
      }
      GetKeeps(w, Key(dev, SUPER_BLOCK));
      ViewFields();
      CopySuper(slot.value, p.value);
      PutBlock(p, true);
      ok := true;
    }

    /** Copies the on-device part of a superblock from a held block to its slot. */
    method CopySuper(i: nat, p: nat)
      requires Valid() && Inv(View()) && i < supers.Length && p < block.Length
      modifies supers
      ensures Valid()
      ensures View() == (var w := old(View()); SetSuper(w, i, w.supers[i].(raw := SuperPart(w.slots[p].data))))
      ensures block[p].dirty ==> Major(block[p].dev) as int < NUM_DRIVERS && SuperGet(supers[..], block[p].dev).Some?
    {
      ghost var w := View();
      hide Inv, LruRing.Valid, SuperGet;
      var raw := Memcpy(supers[i].raw, 0, block[p].data, 0, SUPER_BYTES);
      assert raw == SuperPart(block[p].data);
      supers[i] := supers[i].(raw := raw);
      assert supers[..] == w.supers[i := supers[i]];
      SetSuperKeeps(w, i, supers[i]);
      DirtyInTable(View(), p);
    }

    /** Opens a block device, as far as its driver allows. */
    method OpenDevice(dev: Dev)
      requires Valid() && Major(dev) as int < NUM_DRIVERS
      modifies this`errCode
      ensures Valid() && View() == if Opens(old(View()).io, dev) then old(View()) else old(View()).(err := ENXIO)
      ensures DriverIndex(dev) < NUM_DRIVERS
      ensures
        var pid := blockDriver[DriverIndex(dev)];
        errCode == if pid != NO_PID && Target(pid, Unit(dev)) in images then old(errCode) else ENXIO
    {
      hide Major, Minor, DriverIndex, Unit, LruRing.Valid;
      NumberBytes(dev);
      var pid := blockDriver[Major(dev) as int];
      if pid == NO_PID || Target(pid, Minor(dev)) !in images {
        errCode := ENXIO;
      }
    }

    /** Fills in the fields of the root's superblock, except for its root inode. */
    method FillRootSuper(i: nat)
      requires Valid() && i < supers.Length
      modifies supers, this`clock
      ensures Valid() && View() == FillRoot(old(View()), i)
    {
      hide Splice, ShiftedSize, U16, U32, Bytes16, Bytes32, MajMinToDev, LruRing.Valid;
      var raw := PutU32(supers[i].raw, S_MTIME, clock.Now());
      clock := clock.After();
      raw := PutU16(raw, S_MNT_COUNT, (U16(raw, S_MNT_COUNT) + 1) % 0x1_0000);
      raw := PutU16(raw, S_STATE, EXT2_ERROR_FS);
      var root := ['/' as int, 0];
      raw := Memcpy(raw, S_LAST_MOUNTED, root, 0, 2);
      assert root[0..2] == root;
      var size := ShiftedSize(U32(raw, S_LOG_BLOCK_SIZE));
      supers[i] := supers[i].(raw := raw, dev := ROOT_DEV, blockSize := size, mountPoint := None);
    }

    /** Mounts the root file system, giving the slot of its root inode; None stands for a panic. */
    method MountRoot() returns (r: Option<nat>)
      requires Valid() && Inv(View()) && FreeClean(View()) && !AllHeld(View())
      requires NothingMounted(View(), inode[..]) && RootDiskOk(Logical(View()))
      modifies this`images, this`clock, this`errCode, block, supers, ring, ring.prev, ring.next, inode
      ensures Valid()
      ensures match Mounting.MountRoot(old(View()), old(inode[..]), robust)
              case None => r.None?
              case Some((w, t, n)) => r == Some(n) && View() == w && inode[..] == t
    {
      hide *;
      ghost var w, t := View(), inode[..];
      RootOpens(w);
      OpenDevice(ROOT_DEV);
      ViewFields();
      RootReady(w, t, robust);
      ReadyLocatable(FillRoot(SuperRead(w, ROOT_DEV, robust).value.0, 0), ROOT_DEV, EXT2_ROOT_INO);
      MountRootUnfolds(w, t, robust);
      if errCode != 0 {
        return None;
      }
      var ok, slot := ReadSuper(ROOT_DEV);
      ViewFields();
      if errCode != 0 {
        return None;
      }
      FillRootSuper(slot.value);
      ViewFields();
      var n := GetInode(ROOT_DEV, EXT2_ROOT_INO);
      if n.None? {
        return None;
      }
      RecordRoot(slot.value, n.value);
      return n;
    }

    /** Records the root inode in a superblock. */
    method RecordRoot(i: nat, n: nat)
      requires Valid() && i < supers.Length
      modifies supers
      ensures Valid()
      ensures View() == (var w := old(View()); SetSuper(w, i, w.supers[i].(rootDir := Some(n), dirty := true)))
    {
      supers[i] := supers[i].(rootDir := Some(n), dirty := true);
    }

    /** Registers a device driver; that of the root device leads to mounting the root file system
        and to setting the root and working directories. False stands for a panic. */
    method Register(isBlock: bool, maj: bv8, pid: int) returns (ok: bool)
      requires Valid() && maj as int < NUM_DRIVERS
      requires isBlock && maj == ROOT_MAJ ==>
        var w := Registered(View(), pid);
        Inv(w) && FreeClean(w) && !AllHeld(w) && NothingMounted(w, inode[..]) && RootDiskOk(Logical(w))
      modifies this, block, supers, ring, ring.prev, ring.next, inode, blockDriver, charDriver
      ensures Valid()
      ensures if isBlock && maj == ROOT_MAJ then
          match RegisterRoot(old(View()), old(inode[..]), pid, robust)
          case None => !ok
          case Some(r) =>
            && ok && View() == r.w && inode[..] == r.t
            && rootDir == Some(r.rootDir) && workDir == Some(r.workDir)
        else
          && ok && View() == WithDriver(old(View()), isBlock, maj, pid) && inode[..] == old(inode[..])
          && rootDir == old(rootDir) && workDir == old(workDir)
      ensures RowAfter(blockDriver[..], old(blockDriver[..]), isBlock, maj, pid)
      ensures RowAfter(charDriver[..], old(charDriver[..]), !isBlock, maj, pid)
      ensures !(isBlock && maj == ROOT_MAJ) ==>
        && block[..] == old(block[..]) && supers[..] == old(supers[..]) && ring.order == old(ring.order)
        && images == old(images) && clock == old(clock) && errCode == old(errCode)
    {
      hide *;
      ghost var w, t := View(), inode[..];
      ViewFields();
      SetDriver(isBlock, maj, pid);
      if isBlock && maj == ROOT_MAJ {
        ghost var w0 := Registered(w, pid);
        RegisterUnfolds(w, t, pid, robust);
        var n := MountRoot();
        if n.None? {
          return false;
        }
        RootFound(w0, t, robust);
        RootDevFacts();
        var dev := MajMinToDev(ROOT_MAJ, ROOT_MIN);
        var root := GetInode(dev, EXT2_ROOT_INO);
        if root.None? {
          return false;
        }
        var work := GetInode(dev, EXT2_ROOT_INO);
        if work.None? {
          return false;
        }
        SetDirs(root, work);
      }
      ok := true;
    }

    /** Sets the root and working directories. */
    method SetDirs(root: Option<nat>, work: Option<nat>)
      requires Valid()
      modifies this`rootDir, this`workDir
      ensures Valid() && View() == old(View()) && rootDir == root && workDir == work
    {
      rootDir, workDir := root, work;
    }

    /** Maps a major number to its driver's process. */
    method SetDriver(isBlock: bool, maj: bv8, pid: int)
      requires Valid() && maj as int < NUM_DRIVERS
      modifies blockDriver, charDriver
      ensures Valid() && View() == WithDriver(old(View()), isBlock, maj, pid)
      ensures isBlock && maj == ROOT_MAJ ==> View() == Registered(old(View()), pid)
      ensures RowAfter(blockDriver[..], old(blockDriver[..]), isBlock, maj, pid)
      ensures RowAfter(charDriver[..], old(charDriver[..]), !isBlock, maj, pid)
    {
      if isBlock {
        blockDriver[maj as int] := pid;
      } else {
        charDriver[maj as int] := pid;
      }
    }
  }
}
