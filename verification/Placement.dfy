/** Where inodes reside on a device: block and offset, from the inode number. */
module Placement {
  import opened Config
  import opened Bytes
  import opened Device
  import opened Superblock

  /** Group descriptors in the group block: their size, and the offset of the inode table's first block. */
  const GROUP_BYTES := 32
  const BG_INODE_TABLE := 8
  const MAX_GROUPS := BLOCK_SIZE / GROUP_BYTES

  datatype Place = Place(blk: int, offset: nat)

  /** The geometry is one the arithmetic below is defined on. */
  predicate Divisible(s: Geometry) {
    && s.blockSize == BLOCK_SIZE && 0 < s.inodeSize <= INODE_BYTES && s.inodesPerGroup > 0
  }

  /** Unsigned division and remainder, by repeated subtraction; QuotIsDivision relates them to
      Dafny's operators. Keeping them recursive keeps non-linear arithmetic out of other proofs. */
  function Quot(a: nat, b: nat): nat
    requires b > 0
  {
    if a < b then 0 else 1 + Quot(a - b, b)
  }

  function Rem(a: nat, b: nat): (r: nat)
    requires b > 0
    ensures r < b
  {
    if a < b then a else Rem(a - b, b)
  }

  lemma {:induction false} QuotRem(a: nat, b: nat)
    requires b > 0
    ensures a == Quot(a, b) * b + Rem(a, b)
  {
    if a >= b {
      QuotRem(a - b, b);
      assert Quot(a, b) * b == Quot(a - b, b) * b + b;
    }
  }

  lemma {:induction false} QuotIsDivision(a: nat, b: nat)
    requires b > 0
    ensures Quot(a, b) == a / b && Rem(a, b) == a % b
  {
    QuotRem(a, b);
    UniqueQuotient(a, b, Quot(a, b), Rem(a, b), a / b, a % b);
  }

  lemma {:induction false} UniqueQuotient(a: nat, b: nat, q: nat, r: nat, q': int, r': nat)
    requires b > 0 && a == q * b + r && a == q' * b + r' && r < b && r' < b
    ensures q == q' && r == r'
  {
    assert (q - q') * b == r' - r;
    if q > q' {
      MulMono(1, q - q', b);
    } else if q < q' {
      MulMono(1, q' - q, b);
    }
  }

  lemma {:induction false} QuotPositive(a: nat, b: nat)
    requires 0 < b <= a
    ensures Quot(a, b) > 0
  {}

  function InodesPerBlock(s: Geometry): (n: nat)
    requires Divisible(s)
    ensures n > 0
  {
    QuotPositive(s.blockSize, s.inodeSize);
    Quot(s.blockSize, s.inodeSize)
  }

  function Group(s: Geometry, ino: u32): nat
    requires Divisible(s)
  {
    Quot(ToU32(ino - 1), s.inodesPerGroup)
  }

  function Index(s: Geometry, ino: u32): nat
    requires Divisible(s)
  {
    Rem(ToU32(ino - 1), s.inodesPerGroup)
  }

  /** The first block of a group's inode table, from the group block. */
  function TableOf(groups: BlockData, group: nat): u32
    requires group < MAX_GROUPS
  {
    U32(groups, group * GROUP_BYTES + BG_INODE_TABLE)
  }

  /** The block an inode is in, given the contents of the group block. */
  function BlkOf(s: Geometry, groups: BlockData, ino: u32): int
    requires Divisible(s) && Group(s, ino) < MAX_GROUPS
  {
    ToLong(TableOf(groups, Group(s, ino)) + Quot(Index(s, ino), InodesPerBlock(s)))
  }

  /** Block and offset of an inode, given the contents of the group block. */
  function Locate(s: Geometry, groups: BlockData, ino: u32): Place
    requires Divisible(s) && Group(s, ino) < MAX_GROUPS
  {
    Place(BlkOf(s, groups, ino), Rem(Index(s, ino), InodesPerBlock(s)) * s.inodeSize)
  }

  // ----- Well-formed devices -----

  predicate ValidIno(s: Geometry, ino: u32) { 1 <= ino <= s.inodesCount }

  /** How many blocks the inode table of a group takes. */
  function TableBlocks(s: Geometry): nat
    requires Divisible(s)
  {
    Quot(s.inodesPerGroup + InodesPerBlock(s) - 1, InodesPerBlock(s))
  }

  /** The groups that have inodes. */
  predicate UsedGroup(s: Geometry, g: nat)
    requires Divisible(s)
  {
    g < Quot(s.inodesCount + s.inodesPerGroup - 1, s.inodesPerGroup)
  }

  /** The inode table of a group lies past the group block, within the range of block numbers. */
  predicate TableInRange(s: Geometry, groups: BlockData, g: nat)
    requires Divisible(s)
  {
    g < MAX_GROUPS && GROUP_BLOCK < TableOf(groups, g) && TableOf(groups, g) + TableBlocks(s) <= MAX_BLK
  }

  /** The inode tables of two groups do not overlap. */
  predicate TablesApart(s: Geometry, groups: BlockData, g: nat, h: nat)
    requires Divisible(s)
  {
    g < MAX_GROUPS && h < MAX_GROUPS ==>
      || TableOf(groups, g) + TableBlocks(s) <= TableOf(groups, h)
      || TableOf(groups, h) + TableBlocks(s) <= TableOf(groups, g)
  }

  /** All descriptors are in the group block; the inode tables lie past it, within the range of
      block numbers, and do not overlap. */
  ghost predicate LayoutOk(s: Geometry, groups: BlockData) {
    && Divisible(s)
    && (forall g: nat {:trigger TableInRange(s, groups, g)} :: UsedGroup(s, g) ==> TableInRange(s, groups, g))
    && (forall g: nat, h: nat {:trigger TablesApart(s, groups, g, h)} ::
          g < h && UsedGroup(s, g) && UsedGroup(s, h) ==> TablesApart(s, groups, g, h))
  }

  lemma {:induction false} MulMono(a: nat, b: nat, c: nat)
    requires a <= b
    ensures a * c <= b * c
  {}

  /** A device of one group is well formed exactly when its inode table is in range. */
  lemma {:induction false} OneGroupLayout(s: Geometry, groups: BlockData)
    requires Divisible(s) && 0 < s.inodesCount <= s.inodesPerGroup
    ensures LayoutOk(s, groups) <==> GROUP_BLOCK < TableOf(groups, 0) && TableOf(groups, 0) + TableBlocks(s) <= MAX_BLK
  {
    var n := s.inodesCount + s.inodesPerGroup - 1;
    assert Quot(n, s.inodesPerGroup) == 1 + Quot(n - s.inodesPerGroup, s.inodesPerGroup) == 1;
    hide Quot, TableOf, TableBlocks;
    var table := TableOf(groups, 0);
    assert TableInRange(s, groups, 0) <==> GROUP_BLOCK < table && table + TableBlocks(s) <= MAX_BLK;
  }

  /** An index below `n` falls in one of the `(n + per - 1) / per` blocks a table of `n` takes. */
  lemma {:induction false} IndexInTable(index: nat, n: nat, per: nat)
    requires per > 0 && index < n
    ensures Quot(index, per) < Quot(n + per - 1, per)
  {
    hide Quot, Rem;
    var q, blocks := Quot(index, per), Quot(n + per - 1, per);
    QuotRem(index, per);
    QuotRem(n + per - 1, per);
    if blocks <= q {
      MulMono(blocks, q, per);
    }
  }

  lemma {:induction false} ValidGroup(s: Geometry, ino: u32)
    requires Divisible(s) && ValidIno(s, ino)
    ensures UsedGroup(s, Group(s, ino)) && Index(s, ino) < s.inodesPerGroup
    ensures ino - 1 == Group(s, ino) * s.inodesPerGroup + Index(s, ino)
  {
    hide Quot, Rem;
    assert ToU32(ino - 1) == ino - 1;
    QuotRem(ino - 1, s.inodesPerGroup);
    IndexInTable(ino - 1, s.inodesCount, s.inodesPerGroup);
  }

  /** Every inode lies within one block past the group block, even if inodes do not fill blocks evenly. */
  lemma {:induction false} PlaceInBounds(s: Geometry, groups: BlockData, ino: u32)
    requires LayoutOk(s, groups) && ValidIno(s, ino)
    ensures Group(s, ino) < MAX_GROUPS
    ensures var g, p := Group(s, ino), Locate(s, groups, ino);
      && p.blk == TableOf(groups, g) + Quot(Index(s, ino), InodesPerBlock(s))
      && TableOf(groups, g) <= p.blk < TableOf(groups, g) + TableBlocks(s)
      && GROUP_BLOCK < p.blk < MAX_BLK
      && p.offset + s.inodeSize <= BLOCK_SIZE
  {
    ValidGroup(s, ino);
    var g, per, index := Group(s, ino), InodesPerBlock(s), Index(s, ino);
    assert TableInRange(s, groups, g);
    PerBlockFits(s);
    hide LayoutOk, UsedGroup, Quot, Rem, ToLong, ToU32, Group, Index, TableOf, InodesPerBlock;
    IndexInTable(index, s.inodesPerGroup, per);
    QuotRem(index, per);
    SmallLong(TableOf(groups, g) + Quot(index, per));
    OffsetInBlock(Rem(index, per), per, s.inodeSize);
  }

  lemma {:induction false} PerBlockFits(s: Geometry)
    requires Divisible(s)
    ensures InodesPerBlock(s) * s.inodeSize <= BLOCK_SIZE
  {
    QuotRem(s.blockSize, s.inodeSize);
  }

  lemma {:induction false} SmallLong(x: int)
    requires 0 <= x < 0x8000_0000
    ensures ToLong(x) == x
  {}

  lemma {:induction false} OffsetInBlock(r: nat, per: nat, size: nat)
    requires r < per
    ensures r * size + size <= per * size
  {
    MulMono(r + 1, per, size);
  }

  /** The places of two inodes of one device have a byte in common. */
  ghost predicate Overlap(s: Geometry, groups: BlockData, i: u32, j: u32)
    requires Divisible(s) && Group(s, i) < MAX_GROUPS && Group(s, j) < MAX_GROUPS
  {
    var p, q := Locate(s, groups, i), Locate(s, groups, j);
    p.blk == q.blk && p.offset < q.offset + s.inodeSize && q.offset < p.offset + s.inodeSize
  }

  lemma {:induction false} MultiplesApart(r1: nat, r2: nat, size: nat)
    requires r1 < r2
    ensures r1 * size + size <= r2 * size
  {
    MulMono(r1 + 1, r2, size);
  }

  /** On a well-formed device, distinct inodes have disjoint places. */
  lemma {:induction false} PlacesDisjoint(s: Geometry, groups: BlockData, i: u32, j: u32)
    requires LayoutOk(s, groups) && ValidIno(s, i) && ValidIno(s, j)
    ensures Group(s, i) < MAX_GROUPS && Group(s, j) < MAX_GROUPS
    ensures Overlap(s, groups, i, j) <==> i == j
  {
    PlaceInBounds(s, groups, i);
    PlaceInBounds(s, groups, j);
    ValidGroup(s, i);
    ValidGroup(s, j);
    var g, h := Group(s, i), Group(s, j);
    assert TablesApart(s, groups, g, h) || TablesApart(s, groups, h, g) || g == h;
    hide Quot, Rem, ToU32, Group, Index, TableOf, TableBlocks;
    if Overlap(s, groups, i, j) && Group(s, i) == Group(s, j) {
      var per, x, y := InodesPerBlock(s), Index(s, i), Index(s, j);
      QuotRem(x, per);
      QuotRem(y, per);
      if Rem(x, per) < Rem(y, per) {
        MultiplesApart(Rem(x, per), Rem(y, per), s.inodeSize);
      } else if Rem(y, per) < Rem(x, per) {
        MultiplesApart(Rem(y, per), Rem(x, per), s.inodeSize);
      }
    }
  }

  /** The group descriptors give the same inode tables. */
  ghost predicate SameTables(b1: BlockData, b2: BlockData) {
    forall g: nat :: g < MAX_GROUPS ==> TableOf(b1, g) == TableOf(b2, g)
  }

  /** Equal inode tables make for equal layouts. */
  lemma {:induction false} SameLayout(s: Geometry, b: BlockData, b': BlockData)
    requires LayoutOk(s, b) && SameTables(b, b')
    ensures Divisible(s) && LayoutOk(s, b')
  {
    hide TableOf, TableBlocks, UsedGroup, Divisible;
    forall g: nat | UsedGroup(s, g) ensures TableInRange(s, b', g) {
      assert TableInRange(s, b, g);
    }
    forall g: nat, h: nat | g < h && UsedGroup(s, g) && UsedGroup(s, h) ensures TablesApart(s, b', g, h) {
      assert TablesApart(s, b, g, h);
    }
  }
}
