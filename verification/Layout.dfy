/** The on-device structures as their declarations lay them out: fields one after the other, each
    little-endian and of its own size. */
module Layout {
  import opened Config
  import opened Bytes
  import opened Device
  import opened Superblock
  import opened Cache
  import opened Placement
  import opened Inodes
  import opened InodeProofs

  /** The value of a little-endian field. */
  function Value(field: seq<byte>): nat {
    if field == [] then 0 else field[0] + 0x100 * Value(field[1..])
  }

  /** Where field `i` begins. */
  function Offset(sizes: seq<nat>, i: nat): nat
    requires i <= |sizes|
  {
    if i == 0 then 0 else Offset(sizes, i - 1) + sizes[i - 1]
  }

  /** Fields, one after the other. */
  function Concat(fields: seq<seq<byte>>): seq<byte> {
    if fields == [] then [] else Concat(fields[..|fields| - 1]) + fields[|fields| - 1]
  }

  predicate Laid(fields: seq<seq<byte>>, sizes: seq<nat>) {
    |fields| == |sizes| && forall i :: 0 <= i < |fields| ==> |fields[i]| == sizes[i]
  }

  lemma {:induction false} OffsetOfPrefix(sizes: seq<nat>, n: nat, i: nat)
    requires i <= n <= |sizes|
    ensures Offset(sizes[..n], i) == Offset(sizes, i)
  {
    if i > 0 {
      OffsetOfPrefix(sizes, n, i - 1);
    }
  }

  lemma {:induction false} OffsetMono(sizes: seq<nat>, i: nat, j: nat)
    requires i <= j <= |sizes|
    ensures Offset(sizes, i) <= Offset(sizes, j)
  {
    if i < j {
      OffsetMono(sizes, i, j - 1);
    }
  }

  /** Field `i` is found at its offset. */
  lemma {:induction false} FieldAt(fields: seq<seq<byte>>, sizes: seq<nat>, i: nat)
    requires Laid(fields, sizes) && i < |fields|
    ensures |Concat(fields)| == Offset(sizes, |sizes|)
    ensures Offset(sizes, i) + sizes[i] <= |Concat(fields)|
    ensures Concat(fields)[Offset(sizes, i)..Offset(sizes, i) + sizes[i]] == fields[i]
  {
    var n := |fields| - 1;
    ConcatSize(fields, sizes);
    ConcatSize(fields[..n], sizes[..n]);
    OffsetOfPrefix(sizes, n, n);
    if i < n {
      FieldAt(fields[..n], sizes[..n], i);
      OffsetOfPrefix(sizes, n, i);
      var from, to := Offset(sizes, i), Offset(sizes, i) + sizes[i];
      assert Concat(fields)[from..to] == Concat(fields[..n])[from..to];
    }
  }

  lemma {:induction false} ConcatSize(fields: seq<seq<byte>>, sizes: seq<nat>)
    requires Laid(fields, sizes)
    ensures |Concat(fields)| == Offset(sizes, |sizes|)
  {
    if fields != [] {
      var n := |fields| - 1;
      ConcatSize(fields[..n], sizes[..n]);
      OffsetOfPrefix(sizes, n, n);
    }
  }

  lemma {:induction false} ShortValue(b: seq<byte>, at: nat)
    requires at + 2 <= |b|
    ensures U16(b, at) == Value(b[at..at + 2])
  {
    assert b[at..at + 2] == [b[at], b[at + 1]];
    assert Value([b[at], b[at + 1]]) == b[at] + 0x100 * Value([b[at + 1]]);
  }

  lemma {:induction false} LongValue(b: seq<byte>, at: nat)
    requires at + 4 <= |b|
    ensures U32(b, at) == Value(b[at..at + 4])
  {
    var f := b[at..at + 4];
    ShortValue(b, at + 2);
    assert f[2..] == b[at + 2..at + 4] && f[1..][1..] == f[2..];
    assert Value(f) == f[0] + 0x100 * (f[1] + 0x100 * Value(f[2..]));
  }

  // The fields that reside on the device, by size.

  const SUPER_LAYOUT: seq<nat> := [
    4, 4, 4, 4, 4, 4, 4, 4, 4, 4, 4, 4, 4, // s_inodes_count to s_wtime
    2, 2, 2, 2, 2, 2,                      // s_mnt_count to s_minor_rev_level
    4, 4, 4, 4, 2, 2,                      // s_lastcheck to s_def_resgid
    4, 2, 2, 4, 4, 4,                      // s_first_ino to s_feature_ro_compat
    16, 16, 64, 4]                         // s_uuid to s_algo_bitmap

  const INODE_LAYOUT: seq<nat> := [
    2, 2, 4, 4, 4, 4, 4, 2, 2, 4, 4, 4,    // i_mode to i_osd1
    60, 4, 4, 4, 4, 12]                    // i_block to i_osd2

  const GROUP_LAYOUT: seq<nat> := [
    4, 4, 4,                               // bg_block_bitmap to bg_inode_table
    2, 2, 2, 2, 12]                        // bg_free_blocks_count to bg_reserved

  // The places of the fields of interest in those lists.
  const INODES_COUNT := 0
  const LOG_BLOCK_SIZE := 6
  const INODES_PER_GROUP := 10
  const MTIME := 11
  const WTIME := 12
  const MNT_COUNT := 13
  const STATE := 16
  const SIZE_OF_INODE := 26
  const LAST_MOUNTED := 33
  const ATIME := 3
  const FLAGS := 10
  const INODE_TABLE := 2

  predicate AllOf(sizes: seq<nat>, i: nat, j: nat, size: nat) {
    i <= j <= |sizes| && forall n :: i <= n < j ==> sizes[n] == size
  }

  /** Fields of equal size. */
  lemma {:induction false} EqualFields(sizes: seq<nat>, i: nat, j: nat, size: nat)
    requires AllOf(sizes, i, j, size)
    ensures Offset(sizes, j) == Offset(sizes, i) + (j - i) * size
  {
    if i < j {
      EqualFields(sizes, i, j - 1, size);
    }
  }

  lemma {:induction false} SuperPieces()
    ensures |SUPER_LAYOUT| == 35 && AllOf(SUPER_LAYOUT, 0, 13, 4) && AllOf(SUPER_LAYOUT, 13, 19, 2)
    ensures AllOf(SUPER_LAYOUT, 19, 23, 4) && AllOf(SUPER_LAYOUT, 23, 25, 2) && AllOf(SUPER_LAYOUT, 25, 26, 4)
    ensures AllOf(SUPER_LAYOUT, 26, 28, 2) && AllOf(SUPER_LAYOUT, 28, 31, 4) && AllOf(SUPER_LAYOUT, 31, 33, 16)
    ensures AllOf(SUPER_LAYOUT, 33, 34, 64) && AllOf(SUPER_LAYOUT, 34, 35, 4)
  {}

  /** The offsets and sizes that the tables are read and written with are those of the structures. */
  lemma {:induction false} SuperOffsets()
    ensures Offset(SUPER_LAYOUT, INODES_COUNT) == S_INODES_COUNT
    ensures Offset(SUPER_LAYOUT, LOG_BLOCK_SIZE) == S_LOG_BLOCK_SIZE
    ensures Offset(SUPER_LAYOUT, INODES_PER_GROUP) == S_INODES_PER_GROUP
    ensures Offset(SUPER_LAYOUT, MTIME) == S_MTIME && Offset(SUPER_LAYOUT, WTIME) == S_WTIME
    ensures Offset(SUPER_LAYOUT, MNT_COUNT) == S_MNT_COUNT && Offset(SUPER_LAYOUT, STATE) == S_STATE
    ensures Offset(SUPER_LAYOUT, SIZE_OF_INODE) == S_INODE_SIZE
    ensures Offset(SUPER_LAYOUT, LAST_MOUNTED) == S_LAST_MOUNTED
    ensures Offset(SUPER_LAYOUT, |SUPER_LAYOUT|) == SUPER_BYTES
  {
    assert Offset(SUPER_LAYOUT, 0) == 0;
    SuperPieces();
    hide Offset, SUPER_LAYOUT;
    EqualFields(SUPER_LAYOUT, 0, LOG_BLOCK_SIZE, 4);
    EqualFields(SUPER_LAYOUT, 0, INODES_PER_GROUP, 4);
    EqualFields(SUPER_LAYOUT, 0, MTIME, 4);
    EqualFields(SUPER_LAYOUT, 0, WTIME, 4);
    EqualFields(SUPER_LAYOUT, 0, MNT_COUNT, 4);
    EqualFields(SUPER_LAYOUT, MNT_COUNT, STATE, 2);
    EqualFields(SUPER_LAYOUT, STATE, 19, 2);
    EqualFields(SUPER_LAYOUT, 19, 23, 4);
    EqualFields(SUPER_LAYOUT, 23, 25, 2);
    EqualFields(SUPER_LAYOUT, 25, SIZE_OF_INODE, 4);
    EqualFields(SUPER_LAYOUT, SIZE_OF_INODE, 28, 2);
    EqualFields(SUPER_LAYOUT, 28, 31, 4);
    EqualFields(SUPER_LAYOUT, 31, LAST_MOUNTED, 16);
    EqualFields(SUPER_LAYOUT, LAST_MOUNTED, 34, 64);
    EqualFields(SUPER_LAYOUT, 34, 35, 4);
  }

  lemma {:induction false} InodeOffsets()
    ensures Offset(INODE_LAYOUT, ATIME) == I_ATIME && Offset(INODE_LAYOUT, FLAGS) == I_FLAGS
    ensures Offset(INODE_LAYOUT, |INODE_LAYOUT|) == INODE_BYTES
  {
    assert Offset(INODE_LAYOUT, 0) == 0;
    hide Offset;
    EqualFields(INODE_LAYOUT, 0, 2, 2);
    EqualFields(INODE_LAYOUT, 2, ATIME, 4);
    EqualFields(INODE_LAYOUT, ATIME, 7, 4);
    EqualFields(INODE_LAYOUT, 7, 9, 2);
    EqualFields(INODE_LAYOUT, 9, FLAGS, 4);
    EqualFields(INODE_LAYOUT, FLAGS, 12, 4);
    EqualFields(INODE_LAYOUT, 12, 13, 60);
    EqualFields(INODE_LAYOUT, 13, 17, 4);
    EqualFields(INODE_LAYOUT, 17, 18, 12);
  }

  lemma {:induction false} GroupOffsets()
    ensures Offset(GROUP_LAYOUT, INODE_TABLE) == BG_INODE_TABLE
    ensures Offset(GROUP_LAYOUT, |GROUP_LAYOUT|) == GROUP_BYTES
  {
    assert Offset(GROUP_LAYOUT, 0) == 0;
    hide Offset;
    EqualFields(GROUP_LAYOUT, 0, INODE_TABLE, 4);
    EqualFields(GROUP_LAYOUT, INODE_TABLE, 3, 4);
    EqualFields(GROUP_LAYOUT, 3, 7, 2);
    EqualFields(GROUP_LAYOUT, 7, 8, 12);
  }

  // ----- group_find, from the structures -----

  /** Structures of one size, one after the other. */
  lemma {:induction false} StructAt(structs: seq<seq<byte>>, size: nat, g: nat)
    requires g < |structs| && forall h :: 0 <= h < |structs| ==> |structs[h]| == size
    ensures g * size + size <= |Concat(structs)| && Concat(structs)[g * size..g * size + size] == structs[g]
  {
    var sizes := seq(|structs|, _ => size);
    FieldAt(structs, sizes, g);
    EqualFields(sizes, 0, g, size);
  }

  lemma {:induction false} SliceOfSlice(b: seq<byte>, from: nat, size: nat, at: nat, n: nat)
    requires from + size <= |b| && at + n <= size
    ensures b[from..from + size][at..at + n] == b[from + at..from + at + n]
  {
    var part, direct := b[from..from + size][at..at + n], b[from + at..from + at + n];
    forall i | 0 <= i < n ensures part[i] == direct[i] {
      assert part[i] == b[from..from + size][at + i] == b[from + at + i];
    }
  }

  /** Group descriptors, one after the other, as fields. */
  predicate Descriptors(block: BlockData, groups: seq<seq<byte>>, fields: seq<seq<seq<byte>>>) {
    && block == Concat(groups) && |fields| == |groups|
    && forall g :: 0 <= g < |groups| ==> Laid(fields[g], GROUP_LAYOUT) && groups[g] == Concat(fields[g])
  }

  /** The first block of a group's inode table is what the third field of its descriptor says. */
  lemma {:induction false} TableOfGroup(block: BlockData, groups: seq<seq<byte>>, fields: seq<seq<seq<byte>>>, g: nat)
    requires Descriptors(block, groups, fields) && g < |groups|
    ensures g < MAX_GROUPS && TableOf(block, g) == Value(fields[g][INODE_TABLE])
  {
    GroupOffsets();
    forall h | 0 <= h < |groups| ensures |groups[h]| == GROUP_BYTES {
      ConcatSize(fields[h], GROUP_LAYOUT);
    }
    StructAt(groups, GROUP_BYTES, g);
    FieldAt(fields[g], GROUP_LAYOUT, INODE_TABLE);
    var from := g * GROUP_BYTES + BG_INODE_TABLE;
    SliceOfSlice(block, g * GROUP_BYTES, GROUP_BYTES, BG_INODE_TABLE, 4);
    LongValue(block, from);
  }

  /** The fields of a superblock's on-device part that place inodes. */
  lemma {:induction false} GeometryOfFields(s: Super, fields: seq<seq<byte>>)
    requires Laid(fields, SUPER_LAYOUT) && s.raw == Concat(fields)
    ensures var g := s.Geo();
      && g.blockSize == s.blockSize && g.inodeSize == Value(fields[SIZE_OF_INODE])
      && g.inodesPerGroup == Value(fields[INODES_PER_GROUP]) && g.inodesCount == Value(fields[INODES_COUNT])
  {
    SuperOffsets();
    hide Offset, Concat, Value;
    FieldAt(fields, SUPER_LAYOUT, SIZE_OF_INODE);
    FieldAt(fields, SUPER_LAYOUT, INODES_PER_GROUP);
    FieldAt(fields, SUPER_LAYOUT, INODES_COUNT);
    ShortValue(s.raw, S_INODE_SIZE);
    LongValue(s.raw, S_INODES_PER_GROUP);
    LongValue(s.raw, S_INODES_COUNT);
  }

  /** How many inodes of a size fit in a block. */
  function PerBlock(size: nat): (n: nat)
    requires 0 < size <= INODE_BYTES
    ensures n > 0
  {
    QuotIsDivision(BLOCK_SIZE, size);
    QuotPositive(BLOCK_SIZE, size);
    BLOCK_SIZE / size
  }

  /** Block and offset of an inode, in unsigned arithmetic, from the inode table of its group. */
  predicate PlacedBy(p: Place, ino: u32, perGroup: nat, size: nat, table: nat)
    requires perGroup > 0 && 0 < size <= INODE_BYTES
  {
    var index := (ino - 1) % perGroup;
    p.blk == table + index / PerBlock(size) && p.offset == index % PerBlock(size) * size
  }

  lemma {:induction false} LocateArithmetic(s: Geometry, block: BlockData, ino: u32)
    requires LayoutOk(s, block) && ValidIno(s, ino)
    ensures 0 <= (ino - 1) / s.inodesPerGroup < MAX_GROUPS && Group(s, ino) == (ino - 1) / s.inodesPerGroup
    ensures
      var table := TableOf(block, (ino - 1) / s.inodesPerGroup);
      PlacedBy(Locate(s, block, ino), ino, s.inodesPerGroup, s.inodeSize, table)
  {
    PlaceInBounds(s, block, ino);
    assert ToU32(ino - 1) == ino - 1;
    QuotIsDivision(ino - 1, s.inodesPerGroup);
    QuotIsDivision(BLOCK_SIZE, s.inodeSize);
    assert InodesPerBlock(s) == PerBlock(s.inodeSize);
    QuotIsDivision(Index(s, ino), InodesPerBlock(s));
    hide Quot, Rem, TableOf, ToLong, ToU32, LayoutOk;
  }

  /** group_find takes an inode to the block and offset that the structures give: the superblock's
      fields divide the inode number, and the descriptor of the inode's group, among the descriptors that
      make up the group block, has the first block of the inode table. */
  lemma {:induction false} GroupFindPlaces(
    w: Fs, dev: Dev, ino: u32, robust: Robust,
    super: seq<seq<byte>>, groups: seq<seq<byte>>, fields: seq<seq<seq<byte>>>)
    requires Inv(w) && ReadyIno(w, dev, ino)
    requires Laid(super, SUPER_LAYOUT) && w.supers[SuperGet(w.supers, dev).value].raw == Concat(super)
    requires Descriptors(Logical(w)[Key(dev, GROUP_BLOCK)], groups, fields) && |groups| == MAX_GROUPS
    ensures var perGroup, size := Value(super[INODES_PER_GROUP]), Value(super[SIZE_OF_INODE]);
      && perGroup > 0 && 0 < size <= INODE_BYTES && 0 <= (ino - 1) / perGroup < |groups|
      && Locatable(w, dev, ino)
      && (GroupFind(w, dev, ino, robust).Some? ==>
            PlacedBy(GroupFind(w, dev, ino, robust).value.1, ino, perGroup, size,
                     Value(fields[(ino - 1) / perGroup][INODE_TABLE])))
  {
    var block, g := Logical(w)[Key(dev, GROUP_BLOCK)], GeoOf(w, dev);
    GeometryOfFields(w.supers[SuperGet(w.supers, dev).value], super);
    LocateArithmetic(g, block, ino);
    TableOfGroup(block, groups, fields, (ino - 1) / g.inodesPerGroup);
    hide Logical, TableOf, Locate, Concat, Value, Inv, LayoutOk;
    GroupFindBorrows(w, dev, ino, robust);
  }

  // ----- Any bytes are some structure's -----

  /** A structure's bytes, cut into its fields. */
  function Cut(b: seq<byte>, sizes: seq<nat>): (fields: seq<seq<byte>>)
    requires |b| == Offset(sizes, |sizes|)
    ensures Laid(fields, sizes) && Concat(fields) == b
    decreases |sizes|
  {
    if sizes == [] then []
    else
      var n := |sizes| - 1;
      OffsetOfPrefix(sizes, n, n);
      var rest, last := Cut(b[..Offset(sizes, n)], sizes[..n]), b[Offset(sizes, n)..];
      assert (rest + [last])[..n] == rest;
      rest + [last]
  }

  /** Every block is made up of group descriptors. */
  lemma {:induction false} BlockIsDescriptors(block: BlockData)
    returns (groups: seq<seq<byte>>, fields: seq<seq<seq<byte>>>)
    ensures |groups| == MAX_GROUPS && Descriptors(block, groups, fields)
  {
    var sizes := seq<nat>(MAX_GROUPS, _ => GROUP_BYTES);
    EqualFields(sizes, 0, MAX_GROUPS, GROUP_BYTES);
    GroupOffsets();
    groups := Cut(block, sizes);
    fields := seq(MAX_GROUPS, g requires 0 <= g < MAX_GROUPS => Cut(groups[g], GROUP_LAYOUT));
  }
}
