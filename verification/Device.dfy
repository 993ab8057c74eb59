/** Device numbers, the driver table, and the bytes that block drivers keep. */
module Device {
  import opened Config
  import opened Bytes

  function Major(dev: Dev): bv8 { ((dev.bits & 0xFF00) >> 8) as bv8 }
  function Minor(dev: Dev): bv8 { (dev.bits & 0x00FF) as bv8 }
  function MajMinToDev(maj: bv8, min: bv8): Dev {
    Dev(((maj as bv32 & 0xFF) << 8) | (min as bv32 & 0xFF))
  }

  const ROOT_MAJ: bv8 := 2
  const ROOT_MIN: bv8 := 0
  const ROOT_DEV: Dev := MajMinToDev(ROOT_MAJ, ROOT_MIN)

  /** Building a device number and taking it apart are inverse, on exactly the 16-bit numbers. */
  lemma {:induction false} MajMinRoundTrip(maj: bv8, min: bv8, dev: Dev)
    ensures Major(MajMinToDev(maj, min)) == maj && Minor(MajMinToDev(maj, min)) == min
    ensures MajMinToDev(Major(dev), Minor(dev)) == dev <==> dev.bits <= 0xFFFF
    ensures MajMinToDev(maj, min).bits <= 0xFFFF
  {}

  /** Whom a transfer is sent to: a driver process and one of its units. */
  datatype Target = Target(pid: int, min: bv8)

  /** The driver PID table (a row for block and a row for character devices) and, for each
      unit of each block driver, its bytes. */
  datatype Io = Io(blockPid: seq<int>, charPid: seq<int>, images: map<Target, seq<byte>>)
  {
    function Pid(maj: bv8): int {
      if maj as int < |blockPid| then blockPid[maj as int] else NO_PID
    }
    function TargetOf(dev: Dev): Target { Target(Pid(Major(dev)), Minor(dev)) }
  }

  datatype Transfer<+T> = Done(value: T) | Failed(errno: nat)

  /** A driver that knows the unit either serves the whole range or refuses. */
  function DevCheck(io: Io, dev: Dev, off: int, size: nat): Transfer<Target> {
    if io.Pid(Major(dev)) == NO_PID then Failed(ENXIO)
    else
      var t := io.TargetOf(dev);
      if t !in io.images then Failed(ENXIO)
      else if 0 <= off && off + size <= |io.images[t]| then Done(t)
      else Failed(EIO)
  }

  function DevRead(io: Io, dev: Dev, off: int, size: nat): (r: Transfer<seq<byte>>)
    ensures r.Done? ==> |r.value| == size
  {
    match DevCheck(io, dev, off, size)
    case Failed(e) => Failed(e)
    case Done(t) => Done(io.images[t][off..off + size])
  }

  function DevWrite(io: Io, dev: Dev, off: int, buf: seq<byte>): Transfer<Io> {
    match DevCheck(io, dev, off, |buf|)
    case Failed(e) => Failed(e)
    case Done(t) => Done(io.(images := io.images[t := Splice(io.images[t], off, buf)]))
  }

  /** `blk * BLOCK_SIZE`, computed in unsigned 32-bit arithmetic and stored in a signed long. */
  function BlockOff(blk: int): int { ToLong(blk * BLOCK_SIZE) }

  /** A block of a device. */
  datatype Key = Key(dev: Dev, blk: int)

  /** The block numbers whose byte offset does not overflow. */
  const MAX_BLK := 0x20_0000

  /** A 16-bit device number other than NO_DEV whose major number is in the driver table, and
      a block number whose byte offset is representable. */
  predicate ValidKey(k: Key) {
    && k.dev != NO_DEV && k.dev.bits <= 0xFFFF && Major(k.dev) as int < NUM_DRIVERS
    && 0 <= k.blk < MAX_BLK
  }

  /** Two block numbers share a byte offset exactly when they agree modulo 2^22; below
      MAX_BLK the offset is the plain product. */
  lemma {:induction false} BlockOffAliases(b1: int, b2: int)
    ensures BlockOff(b1) == BlockOff(b2) <==> (b1 - b2) % 0x40_0000 == 0
    ensures 0 <= b1 < MAX_BLK ==> BlockOff(b1) == b1 * BLOCK_SIZE
    ensures BlockOff(b1) == BlockOff(b2) || BlockOff(b1) + BLOCK_SIZE <= BlockOff(b2)
         || BlockOff(b2) + BLOCK_SIZE <= BlockOff(b1)
  {
    var r1, r2 := b1 % 0x40_0000, b2 % 0x40_0000;
    WrapOfProduct(b1);
    WrapOfProduct(b2);
    assert (b1 - b2) % 0x40_0000 == 0 <==> r1 == r2 by {
      assert b1 - b2 == (b1 / 0x40_0000 - b2 / 0x40_0000) * 0x40_0000 + (r1 - r2);
    }
  }

  lemma {:induction false} WrapOfProduct(b: int)
    ensures ToU32(b * BLOCK_SIZE) == b % 0x40_0000 * BLOCK_SIZE
  {
    var q, r := b / 0x40_0000, b % 0x40_0000;
    assert b * BLOCK_SIZE == q * 0x1_0000_0000 + r * BLOCK_SIZE;
  }

  /** One driver process per major number. */
  ghost predicate OneDriverPerMajor(io: Io) {
    && |io.blockPid| == NUM_DRIVERS
    && forall i, j :: 0 <= i < j < |io.blockPid| && io.blockPid[i] != NO_PID
                      ==> io.blockPid[i] != io.blockPid[j]
  }

  /** The byte ranges that transfers of two blocks touch have a byte in common. */
  predicate SharesBytes(io: Io, k1: Key, k2: Key) {
    && io.TargetOf(k1.dev) == io.TargetOf(k2.dev)
    && BlockOff(k1.blk) < BlockOff(k2.blk) + BLOCK_SIZE
    && BlockOff(k2.blk) < BlockOff(k1.blk) + BLOCK_SIZE
  }

  lemma {:induction false} SameMajor(a: bv8, b: bv8)
    requires a as int == b as int
    ensures a == b
  {
    assert (a as int) as bv8 == a;
    assert (b as int) as bv8 == b;
  }

  /** Distinct blocks of registered devices reach disjoint bytes. */
  lemma {:induction false} AddressingInjective(io: Io, k1: Key, k2: Key)
    requires OneDriverPerMajor(io) && ValidKey(k1) && ValidKey(k2)
    requires io.Pid(Major(k1.dev)) != NO_PID
    ensures SharesBytes(io, k1, k2) <==> k1 == k2
  {
    hide Major, Minor, MajMinToDev, BlockOff;
    BlockOffAliases(k1.blk, k2.blk);
    if SharesBytes(io, k1, k2) {
      assert Major(k1.dev) as int == Major(k2.dev) as int;
      SameMajor(Major(k1.dev), Major(k2.dev));
      MajMinRoundTrip(0, 0, k1.dev);
      MajMinRoundTrip(0, 0, k2.dev);
    }
  }

  /** Where a block has its bytes on a registered driver. */
  predicate Addressable(io: Io, k: Key) {
    ValidKey(k) && DevCheck(io, k.dev, BlockOff(k.blk), BLOCK_SIZE).Done?
  }

  function DeviceBlock(io: Io, k: Key): BlockData
    requires Addressable(io, k)
  {
    DevRead(io, k.dev, BlockOff(k.blk), BLOCK_SIZE).value
  }

  // ----- Where transfers go, from the device number -----

  /** The index into the driver table is the second byte of the device number, and the unit that a
      message names is the first. */
  function DriverIndex(dev: Dev): nat { (dev.bits / 0x100 % 0x100) as int }
  function Unit(dev: Dev): bv8 { (dev.bits % 0x100) as bv8 }

  lemma {:induction false} NumberBytes(dev: Dev)
    ensures Major(dev) as int == DriverIndex(dev) && Minor(dev) == Unit(dev)
  {
    var maj := dev.bits / 0x100 % 0x100;
    assert (dev.bits & 0xFF00) >> 8 == maj;
    assert maj < 0x100;
  }

  /** The range is one that the image of a driver's unit has. */
  predicate InImage(images: map<Target, seq<byte>>, t: Target, off: int, size: nat) {
    t in images && 0 <= off && off + size <= |images[t]|
  }

  /** A transfer fails with ENXIO if the device has no driver or the driver not the unit, with EIO if
      the unit has not the whole range, and is served otherwise: a read gives just these bytes of the
      unit's image, and a write changes just them. */
  lemma {:induction false} TransferMeans(io: Io, dev: Dev, off: int, buf: seq<byte>)
    requires |io.blockPid| == NUM_DRIVERS && Major(dev) as int < NUM_DRIVERS
    ensures DriverIndex(dev) < NUM_DRIVERS
    ensures var pid := io.blockPid[DriverIndex(dev)];
      var t, read, write := Target(pid, Unit(dev)), DevRead(io, dev, off, |buf|), DevWrite(io, dev, off, buf);
      if pid == NO_PID || t !in io.images then read == Failed(ENXIO) && write == Failed(ENXIO)
      else if !InImage(io.images, t, off, |buf|) then read == Failed(EIO) && write == Failed(EIO)
      else
        && read == Done(io.images[t][off..off + |buf|])
        && write == Done(io.(images := io.images[t := Splice(io.images[t], off, buf)]))
        && WrittenAt(io.images, write.value.images, t, off, buf)
  {
    NumberBytes(dev);
    hide Major, Minor, DriverIndex, Unit;
    var t := Target(io.blockPid[DriverIndex(dev)], Unit(dev));
    if t.pid != NO_PID && InImage(io.images, t, off, |buf|) {
      SpliceBytes(io.images[t], off, buf);
    }
  }

  /** One image changed, in one range. */
  predicate WrittenAt(
    images: map<Target, seq<byte>>, images': map<Target, seq<byte>>, t: Target, off: nat, buf: seq<byte>)
  {
    && images'.Keys == images.Keys && t in images && |images'[t]| == |images[t]| && off + |buf| <= |images[t]|
    && (forall u :: u in images && u != t ==> images'[u] == images[u])
    && (forall i :: 0 <= i < |images[t]| ==>
          images'[t][i] == if off <= i < off + |buf| then buf[i - off] else images[t][i])
  }

  /** A block is one that the devices have if its driver is registered and knows the unit, and the unit
      has all its bytes, which are those from the block number times the block size on. */
  lemma {:induction false} AddressableMeans(io: Io, k: Key)
    requires |io.blockPid| == NUM_DRIVERS && ValidKey(k)
    ensures DriverIndex(k.dev) < NUM_DRIVERS
    ensures var pid := io.blockPid[DriverIndex(k.dev)];
      var t, off := Target(pid, Unit(k.dev)), k.blk * BLOCK_SIZE;
      && (Addressable(io, k) <==> pid != NO_PID && InImage(io.images, t, off, BLOCK_SIZE))
      && (Addressable(io, k) ==> DeviceBlock(io, k) == io.images[t][off..off + BLOCK_SIZE])
  {
    BlockOffAliases(k.blk, k.blk);
    NumberBytes(k.dev);
    hide Major, Minor, BlockOff, DriverIndex, Unit;
  }

  /** The device alone, as a plain map from blocks to bytes. */
  ghost function DeviceMap(io: Io): imap<Key, BlockData> {
    imap k | Addressable(io, k) :: DeviceBlock(io, k)
  }

  /** The ranges of two blocks in one driver image: a write to one reads back, and the other is kept. */
  lemma {:induction false} ImageWrite(image: seq<byte>, off: nat, buf: BlockData, lo: nat)
    requires off + BLOCK_SIZE <= |image| && lo + BLOCK_SIZE <= |image|
    requires lo == off || lo + BLOCK_SIZE <= off || off + BLOCK_SIZE <= lo
    ensures Splice(image, off, buf)[lo..lo + BLOCK_SIZE] == if lo == off then buf else image[lo..lo + BLOCK_SIZE]
  {
    if lo != off {
      SpliceMisses(image, off, buf, lo, lo + BLOCK_SIZE);
    }
  }

  /** A write to one block of a device leaves every other block's bytes where they were. */
  lemma {:induction false} DevWriteElsewhere(io: Io, k: Key, buf: BlockData, k2: Key)
    requires OneDriverPerMajor(io) && Addressable(io, k)
    ensures var io' := DevWrite(io, k.dev, BlockOff(k.blk), buf).value;
      && Addressable(io', k2) == Addressable(io, k2)
      && (Addressable(io, k2) ==> DeviceBlock(io', k2) == if k2 == k then buf else DeviceBlock(io, k2))
  {
    hide Major, Minor, BlockOff;
    var t, t2 := io.TargetOf(k.dev), io.TargetOf(k2.dev);
    var off, off2 := BlockOff(k.blk), BlockOff(k2.blk);
    var io' := DevWrite(io, k.dev, off, buf).value;
    assert io'.TargetOf(k2.dev) == t2;
    if Addressable(io, k2) {
      BlockOffAliases(k.blk, k2.blk);
      AddressingInjective(io, k, k2);
      if t2 == t {
        ImageWrite(io.images[t], off, buf, off2);
      }
    }
  }

  /** Writing a block changes that block of the device and nothing else; a block the driver
      refuses leaves the device alone. */
  lemma {:induction false} DevWriteFrame(io: Io, k: Key, buf: BlockData)
    requires OneDriverPerMajor(io) && ValidKey(k)
    ensures var r := DevWrite(io, k.dev, BlockOff(k.blk), buf);
      if Addressable(io, k) then r.Done? && OneDriverPerMajor(r.value) && DeviceMap(r.value) == DeviceMap(io)[k := buf]
      else r.Failed?
  {
    if Addressable(io, k) {
      forall k2 {
        DevWriteElsewhere(io, k, buf, k2);
      }
    }
  }
}
