/** Build-time configuration and the scalar types of the file-system server. */
module Config {

  const BLOCK_SIZE := 1024
  const NUM_BLOCKS := 80
  const NUM_INODES := 64
  const NUM_SUPERS := 8
  const NUM_DRIVERS := 8

  // Layout of blocks on a device.
  const SUPER_BLOCK := 1
  const GROUP_BLOCK := 2

  const EXT2_ROOT_INO: u32 := 2
  const EXT2_ERROR_FS := 2
  const EXT2_NOATIME_FL: bv32 := 0x80

  const NO_PID := -1

  const ENXIO := 59
  const EIO := 29

  /** The write-back policy the kernel is built with. */
  datatype Robust = Sloppy | Sane | Paranoid

  datatype Option<+T> = None | Some(value: T)

  type byte = x: int | 0 <= x < 0x100
  type u32 = x: int | 0 <= x < 0x1_0000_0000

  /** Device numbers are 32 bits wide; only the low 16 are ever decoded. */
  datatype Dev = Dev(bits: bv32)
  const NO_DEV := Dev(0)

  /** The contents of one block. */
  type BlockData = s: seq<byte> | |s| == BLOCK_SIZE witness seq(BLOCK_SIZE, _ => 0)

  /** The part of an inode (a superblock) that resides on the device. */
  const INODE_BYTES := 128
  const SUPER_BYTES := 204
  type InodeRaw = s: seq<byte> | |s| == INODE_BYTES witness seq(INODE_BYTES, _ => 0)
  type SuperRaw = s: seq<byte> | |s| == SUPER_BYTES witness seq(SUPER_BYTES, _ => 0)

  /** `count++` and `--count` on an unsigned char. */
  function Inc8(c: byte): byte { (c + 1) % 0x100 }
  function Dec8(c: byte): byte { (c + 0xFF) % 0x100 }

  /** Reduction to an unsigned or a signed 32-bit long. */
  function ToU32(x: int): u32 { x % 0x1_0000_0000 }
  function ToLong(x: int): int {
    var u := ToU32(x);
    if u < 0x8000_0000 then u else u - 0x1_0000_0000
  }
}
