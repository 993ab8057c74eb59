# The Brainix file-system server's buffer layer, in Dafny

Brainix's file-system server reaches its devices through three tables: a cache of blocks kept on a
least-recently-used ring, a table of inodes stacked on that cache, and a table of superblocks whose
fields place the inodes. This project models those tables and the device addressing below them, and
proves what the rest of the server relies on: that the cache cannot be told from a plain disk, that
inodes never overlap and read back what was written to them whatever is evicted in between, that a
block or inode in use is never taken away, and what each write-back mode leaves on the devices.

Check it with `dafny verify dfyconfig.toml`.

## How it is built

| file | holds |
|---|---|
| `Config`, `Bytes` | build-time constants, C integer widths, byte buffers, `memcpy`, little-endian fields |
| `Device` | device numbers, the driver table, the bytes that block drivers keep |
| `Ring` | the LRU list: the class `LruRing` over arrays of links, and the order it stands for |
| `Super` | the superblock table and the clock |
| `Cache`, `CacheProofs` | each cache operation as a transition on a value of type `Fs`, the invariant `Inv`, and the plain map `Logical` that cache and devices stand for |
| `Runs`, `History`, `Durability` | arbitrary interleavings of block requests: refinement, panics, recency, reference counts, write-back |
| `Overflow` | which slot a get evicts, in terms of the requests so far, and how the 8-bit counter lets it be one in use |
| `Placement`, `Layout` | from inode numbers to byte ranges, and the same from the structures as they are declared |
| `Inode`, `InodeProofs`, `InodeRuns` | `group_find`, `inode_rw`, `inode_get` and `inode_put`, and what they do to the logical disk |
| `InodeDurability` | when an inode that was written out is on its device |
| `InodeTable`, `TableSteps` | the inode table as its users see it, and what single operations do to it |
| `Requests`, `RequestDurability` | arbitrary interleavings of block requests, `group_find`, `inode_rw`, `inode_get`, holders' changes and `inode_put`, and what has reached the devices after them |
| `Mount` | `super_read`, mounting the root, registering its driver, from initialisation on |
| `Floppy` | a concrete small root device: the server boots from it, and cases in which a written inode and a changed block do not reach it |
| `Steps`, `Server` | the class `FileServer`: the global tables as arrays, the operations as methods that update them in place, each proved to do what the transition on values does |

The listings update global tables in place, so the code is the classes `LruRing` and `FileServer`:
pointers into a table are slot numbers, the ring's `prev` and `next` fields are arrays, the searches
are the loops of the source, and every method's contract equates the whole new state
(`View()`) with a function of the old one. What is proved about those functions, for one operation
and then for all runs, is thereby proved about the methods.

Places where the listings and the text around them disagree follow the listings: `block_put` goes on
only when the decremented count is 0 (doc/tex/fs.tex:826), and `memcpy` copies bytes rather than
switching addresses (doc/tex/fs.tex:878). Four functions that the listings call or rely on but do not
show follow src/fs/block.c and src/fs/inode.c: `recently_used` (splice the block out of the ring and in before `lru`,
for LEAST moving `lru` back onto it), `dev_sync`, `dev_purge` and `inode_put`.

## What is assumed

- A driver serves a whole transfer or refuses it with an error; no two majors have the same driver
  process (`OneDriverPerMajor`). A refused transfer is not excluded: `block_rw` ignores it as the
  source does, and `Logical` covers exactly the blocks that the drivers serve (`Addressable`).
- Callers ask for blocks of 16-bit device numbers other than NO_DEV, with a major that the driver
  table has and a block number whose byte offset fits a signed long (`ValidKey`). For other block numbers `BlockOffAliases`
  says which of them collide.
- Only holders read, change and put a block, and they change only blocks of mounted devices
  (`Enabled`). A `block_put` of a block nobody holds is not a legal request.
- Inode theorems are about mounted devices with the layout that ext2 prescribes (`DeviceOk`): the
  file system's block size is that of the cache, the inode size is positive and at most the on-device
  part of an inode record, all group descriptors in use are in the one block GROUP_BLOCK, and the
  inode tables lie behind it without overlap. Inode sizes need not divide the block size.
- Shift counts are taken modulo 32, as the i386 does: with `s_log_block_size` of 32 or more,
  `1024 << s_log_block_size` is what that gives, where C leaves it open.
- Structures have the layout of the i386 compiler: 8-bit `char`, 16-bit `short`, 32-bit `long`, little-endian.
- `do_time` gives arbitrary readings (`Clock`). A panic is the outcome None (false for a method that
  returns no slot).
- The block, inode and superblock arrays hold records; assigning an updated record to an element stands for assigning its fields.

## Results that limit the code

Some promises hold of the code only on a condition, which is then stated exactly.

- Counters are 8 bits wide. A get evicts exactly the slot whose outstanding references are a multiple of 256
  and that was last got the longest ago among those (`Overflow.EvictedExactly`); with fewer than 256 holders
  of each block that is the least recently used unused one, and held blocks stay, whatever is requested of blocks and
  inodes (`Requests.HeldNeverStolen`). With 256 they do not: from initialisation, 256 gets of one block and
  gets of as many others as there are slots hand the held slot to another block (`Overflow.OverflowEvictsHeld`).
- `block_rw` marks a block clean whether or not the driver served the transfer. The bytes reach the
  device if and only if the driver has the block (`Durability.WriteBackLost`), and a failed read
  shows the evicted block's bytes under the new block's name (`Durability.GetMissShows`). A server meets both with
  any block that its driver refuses (`Durability.RefusedBlockLost`), such as one past the end of the device it
  booted from (`Floppy.LostPastTheEnd`).
- Device numbers survive `dev_to_maj_min` and `maj_min_to_dev` if and only if they fit 16 bits
  (`Device.MajMinRoundTrip`), and block numbers reach the same bytes if and only if they agree modulo
  2^22 (`Device.BlockOffAliases`).
- An inode that `inode_rw` writes out is on its device on return if and only if nobody held its block
  before and the mode is not SLOPPY, or the device has those bytes anyway
  (`InodeDurability.InodeWriteReachesDevice`). `Floppy.SharedRootMissesFloppy` is a concrete case in which it is not:
  the server boots, a client holds the root inode's block, and the changed root inode is written out.

Which slots are left unwritten is exact for runs of block requests (`Durability.UnwrittenExactly`); with inode
requests among them one direction is proved: outside SLOPPY mode an unused block is unwritten only if the put
that ended its use was called unimportant (`RequestDurability.UnwrittenMeansCareless`).

## Model

| member | source | states |
|---|---|---|
| `Runs.CacheRefinesPlainDisk` | doc/tex/fs.tex:657-843 | over every run of gets, holders' reads and writes, puts and syncs, in all three modes and with all evictions, callers see exactly what a plain map from (dev, blk) to bytes would show them, and the map changes only by holders' writes |
| `CacheProofs.GetKeeps` | doc/tex/fs.tex:657-704 | a get keeps the invariant and the logical disk, and hands out a slot that carries the requested block and the disk's current bytes of it |
| `CacheProofs.GetPanics` | doc/tex/fs.tex:667-704 | a get panics if and only if no slot carries the block and every slot is in use |
| `CacheProofs.PutKeeps` | doc/tex/fs.tex:820-843 | a put keeps the logical disk and the ring, lowers one count, and cleans the block exactly when it was the last reference and the mode is PARANOID, or SANE and the put important |
| `Durability.PutLeavesDevice` | doc/tex/fs.tex:826-842 | a put in SLOPPY mode, an unimportant one in SANE mode and a put by one of several holders change nothing but the count: no device, superblock, clock, error code or dirty flag |
| `Durability.LastPutWrites` | doc/tex/fs.tex:826-842 | the last put in PARANOID mode, and an important one in SANE mode, leaves the block clean and on its device if the driver has it, and no other block's device bytes change; a clean block is not written |
| `Durability.SloppyPutsWriteNothing` | doc/tex/fs.tex:840-842 | no put of any SLOPPY run changes anything but a count |
| `Durability.SloppyRunWritesNothing` | doc/tex/fs.tex:693-842 | in a SLOPPY run devices and superblocks stay as they were until a dirty block is evicted or a device is synced |
| `Durability.UnwrittenExactly` | doc/tex/fs.tex:826-842 | after every run short of overflow, in any mode, a slot is unused and dirty if and only if the put that ended its use found it dirty and was one that does not write in that mode, and since then it was not handed out and its device not synced |
| `CacheProofs.WriteKeeps` | doc/tex/fs.tex:1054-1061 | a holder's write changes the logical bytes of that one block, in the written range |
| `CacheProofs.WriteBackKeeps` | doc/tex/fs.tex:710-796 | writing a block back keeps the invariant and the logical disk, even where the driver refuses |
| `Runs.InitialInv` | doc/tex/fs.tex:211-235 | after initialisation the invariant holds and the logical disk is the devices |
| `Runs.RunKeeps` | doc/tex/fs.tex:657-843 | in every reachable state there is at most one slot per block, clean slots equal the device, every dirty block's device is in the superblock table (so the write path's lookup is never NULL), the ring is a permutation of the slots, and superblocks change at most in s_wtime and dirty |
| `Runs.RunPanics` | doc/tex/fs.tex:804-807 | a run whose callers keep the rules stops only in a get of an uncached block while all slots are in use |
| `History.RingSortedByLastGet` | doc/tex/fs.tex:667-704 | after every run from a sound state, such as initialisation or a mounted server, the ring read from lru is ordered by time of last get; slots not got in the run come first, in the order they had |
| `History.InitialGetTime` | doc/tex/fs.tex:219-234 | after initialisation that order is slot order |
| `History.VictimIsLeastRecentlyGot` | doc/tex/fs.tex:685-704 | the slot a get evicts is, among those in nobody's use, the one got the longest ago, after every run from a sound state |
| `History.CountIsBalance` | doc/tex/fs.tex:673-696 | each slot's count is gets minus puts since its block was cached, modulo 256 |
| `Requests.HeldNeverStolen` | doc/tex/fs.tex:657-1071 | while clients respect a slot's references and stay below the 8-bit bound, no run of block requests, group_find, inode_rw, inode_get and inode_put gives it to another block; its count is exact, and its bytes are the writes to that block, by holders or by inode_rw, applied to the bytes at the start |
| `History.GetOverflows` | doc/tex/fs.tex:673-673 | a get leaves the handed-out slot looking unused if and only if it was the 256th reference to a cached block |
| `Overflow.EvictedExactly` | doc/tex/fs.tex:687-704 | after every run, a get of an uncached block takes over a slot if and only if the references to that slot are a multiple of 256 and no other such slot was last got longer ago |
| `Overflow.OverflowEvictsHeld` | doc/tex/fs.tex:673-696 | from initialisation, in every mode and for any number of slots, 256 gets of one block without a put, then gets of as many other blocks as there are slots, go through, and the last one is handed the slot that 256 references are outstanding for |
| `RequestDurability.UnwrittenMeansCareless` | doc/tex/fs.tex:826-843 | after every run of block and inode requests in which no client's get overflows a counter: in SANE mode every unused dirty block had an unimportant put as the client's last to end its use; in PARANOID mode there is none |
| `RequestDurability.ParanoidDurable` | doc/tex/fs.tex:826-843 | PARANOID: after every such run a block nobody holds is on its device as the logical disk has it, and with nothing held the devices equal the logical disk |
| `Durability.EvictionWritesNothing` | doc/tex/fs.tex:693-698 | while unused slots are clean, as in PARANOID mode, the eviction in a get changes no device and stamps no superblock |
| `Durability.SaneIsParanoid` | doc/tex/fs.tex:831-842 | a run whose puts are all important goes through the same states in SANE as in PARANOID mode |
| `Durability.WriteBackLost` | doc/tex/fs.tex:731-796 | a write-back clears dirty in any case; the bytes are on the device afterwards if and only if the driver has the block, and otherwise the device is unchanged and the error code set |
| `Durability.WriteBackStamps` | doc/tex/fs.tex:788-796 | a write-back stores the next clock reading as s_wtime of the device's superblock and marks it dirty; every other byte of it and every other superblock stays |
| `Durability.GetMissShows` | doc/tex/fs.tex:693-700 | a get of an uncached block shows the logical disk's bytes if the driver has the block, and the evicted bytes, marked clean, if not |
| `Durability.GetMissError` | doc/tex/fs.tex:737-775 | a get of an uncached block leaves the error of its read in the error code if the driver refuses it, ENXIO or EIO by the cause, else that of a refused eviction, else the code as it was |
| `Durability.RefusedBlockLost` | doc/tex/fs.tex:693-843 | a client that gets, changes and puts as important an uncached block that the driver refuses sees the evicted bytes marked clean, leaves the block clean, and changes no device after the get, outside SLOPPY mode |
| `Floppy.LostPastTheEnd` | doc/tex/fs.tex:731-796 | a concrete case: after booting from a six-block device, a block past its end is got, changed and put, and the change is on no device |
| `Ring.MovedKeepsOthers` | doc/tex/fs.tex:674-699 | making a block the most (least) recently used puts it at that end and keeps the relative order of all other blocks |
| `Ring.Spliced` | doc/tex/fs.tex:184-185 | unlinking a slot and linking it in again before lru leaves prev and next mutually inverse links of one ring over all slots, in the moved order |
| `Ring.LruRing.RecentlyUsed` | doc/tex/fs.tex:674-699 | the pointer splice keeps the ring well formed and realises exactly the moved order |
| `Device.MajMinRoundTrip` | doc/tex/fs.tex:566-573 | splitting and building device numbers are inverse, one way for all majors and minors, the other exactly for 16-bit numbers |
| `Device.AddressingInjective` | doc/tex/fs.tex:716-762 | transfers of two blocks have a byte of one driver's unit in common if and only if they are the same block |
| `Device.TransferMeans` | doc/tex/fs.tex:746-759 | a transfer goes to the process that the block row has at the second byte of the device number, and to the unit that its first byte is: ENXIO without process or unit, EIO without the range, and otherwise exactly those bytes of that one image are given or changed |
| `Device.AddressableMeans` | doc/tex/fs.tex:716-733 | a block's bytes are those of that unit's image from the block number times the block size on, and the devices have it if and only if that process, unit and range exist |
| `Device.BlockOffAliases` | doc/tex/fs.tex:717-717 | with the offset computed in 32 bits, two block numbers share it if and only if they agree modulo 2^22, and otherwise their ranges are disjoint |
| `Device.DevWriteFrame` | doc/tex/fs.tex:737-775 | a served write of a block changes that block of the map of all device blocks and no other; a block the driver does not have is refused |
| `Superblock.LayoutKept` | doc/tex/fs.tex:788-796 | superblocks that differ only in what a write-back stamps place inodes alike and belong to the same device |
| `Placement.PlaceInBounds` | doc/tex/fs.tex:1004-1033 | every inode of a well-formed device lies in its group's inode table, behind the group block, within one block, also if inodes do not fill blocks evenly |
| `Placement.PlacesDisjoint` | doc/tex/fs.tex:1004-1033 | the byte ranges of two inodes of a well-formed device overlap if and only if they are the same inode |
| `Placement.QuotIsDivision` | doc/tex/fs.tex:1007-1032 | the quotient and remainder used for placement are those of unsigned division |
| `Placement.OneGroupLayout` | doc/tex/fs.tex:1014-1018 | a device of one group meets the layout condition if and only if its inode table lies behind the group block and within the representable block numbers |
| `Layout.FieldAt` | doc/tex/fs.tex:311-348 | of fields laid one after the other, each is found at the sum of the sizes before it |
| `Layout.SuperOffsets` | doc/tex/fs.tex:311-348 | the offsets that superblock fields are read and written at, and the size copied, are those of the declared structure |
| `Layout.InodeOffsets` | doc/tex/fs.tex:249-269 | so are those of inodes |
| `Layout.GroupOffsets` | doc/tex/fs.tex:973-983 | so are those of group descriptors |
| `Layout.GroupFindPlaces` | doc/tex/fs.tex:989-1033 | with the group block made up of descriptors and the superblock of its fields, group_find gives block inode_table[(ino - 1) / per_group] + ((ino - 1) % per_group) / per_block and offset ((ino - 1) % per_group) % per_block * inode_size, with per_block = BLOCK_SIZE / inode_size, for every group and inode size |
| `InodeProofs.GroupFindBorrows` | doc/tex/fs.tex:989-1033 | group_find does nothing but get and put the group block, and gives the place that the logical disk's descriptors determine |
| `InodeProofs.BorrowNetZero` | doc/tex/fs.tex:1014-1019 | getting a block, perhaps writing to it, and putting it back leaves every slot in use with its block and count, and unused slots unused |
| `InodeProofs.InodeRwKeeps` | doc/tex/fs.tex:948-1071 | inode_rw moves the inode between its record and the logical disk, changes no other byte of that disk and no other field of the record, keeps the invariant, and is net zero on every slot in use |
| `InodeProofs.WriteInodeElsewhere` | doc/tex/fs.tex:1054-1061 | overwriting one inode on a disk leaves the bytes of every other inode, on any device, as they were |
| `InodeRuns.InodeRwPanics` | doc/tex/fs.tex:967-1071 | inode_rw runs out of blocks if and only if the record is dirty, all slots are in use, and the group block or the inode's block is not cached; one slot in nobody's use at entry is enough |
| `Requests.InodeReadOverWrite` | doc/tex/fs.tex:948-1071 | an inode written by inode_rw is read back with the same bytes after any run of block and inode requests that does not write over it, whatever the run evicts |
| `InodeRuns.InodeWriteSparesOthers` | doc/tex/fs.tex:948-1071 | reading any other inode, on any device, gives what it would have given before the write |
| `InodeRuns.InodeRwIsRun` | doc/tex/fs.tex:948-1071 | short of counter overflow, inode_rw is for cache and devices a run of ordinary block requests: two gets, its write, two puts |
| `Requests.RequestsAreRuns` | doc/tex/fs.tex:907-1080 | short of counter overflow, so is every run of block requests, group_find, inode_rw, inode_get and inode_put; what holds of all runs of block requests holds through them |
| `InodeDurability.InodeWriteDevice` | doc/tex/fs.tex:1054-1071 | after inode_rw wrote an inode out, its device block is the logical one if nobody held it and the mode is not SLOPPY; otherwise it is as before, or as the get of the group block wrote it back on evicting it |
| `InodeDurability.InodeWriteReachesDevice` | doc/tex/fs.tex:1054-1071 | the inode is on the device on return if and only if nobody held its block and the mode is not SLOPPY, or those bytes are what the device is left with anyway |
| `Floppy.SharedRootMissesFloppy` | doc/tex/fs.tex:820-843 | a concrete server, booted from a concrete device, on which in every mode an inode written out to a block that a client holds is not on the device on return |
| `InodeTable.InodeGetGives` | doc/tex/fs.tex:907-942 | a get of an inode with a record only raises its count; otherwise it takes a slot in nobody's use, whose on-device fields become the logical disk's bytes while dev, ino and count are those set before the copy |
| `InodeTable.InodeGetPanics` | doc/tex/fs.tex:907-1080 | inode_get panics if and only if the inode has no record and either no slot is free or inode_rw runs out of blocks |
| `InodeTable.InodeGetKeeps` | doc/tex/fs.tex:907-942 | inode_get keeps one record per inode, clean records equal to the logical disk, and what every inode looks like to its users |
| `Requests.RequestsRefineInodes` | doc/tex/fs.tex:657-1080 | over every run of block and inode requests in which inodes are written through the inode table only, each inode looks as the last change, final put or reading in of it left it, whichever slots and blocks were reused, and all records stay coherent with the logical disk |
| `TableSteps.RepeatedGetsShare` | doc/tex/fs.tex:907-942 | repeated gets of an inode return one slot, count the calls modulo 256, and after the first change nothing else |
| `Mounting.SuperReadGives` | doc/tex/fs.tex:609-653 | in every sound state with a block slot and a table slot free, super_read of a device that has its superblock copies every byte of the on-device part off the logical disk into the first free slot and keeps that slot's in-memory fields; the rest of the table changes at most in stamps, the logical disk stays, and blocks in use stay so |
| `Mounting.SuperReadQuiet` | doc/tex/fs.tex:609-653 | while unused blocks are clean, super_read changes no device and no other slot of the table, and raises no error |
| `Mounting.SuperReadNetZero` | doc/tex/fs.tex:651-653 | super_read leaves every block slot in use with its block and count |
| `Mounting.SuperReadUnwritten` | doc/tex/fs.tex:651-816 | outside SLOPPY mode super_read leaves no block unwritten that was not before |
| `Mounting.SuperReadPanics` | doc/tex/fs.tex:619-653 | super_read panics if and only if the table has room, the superblock's block is uncached and every slot is in use; on a full table it changes nothing |
| `Mounting.ColdAllowsRoot` | doc/tex/fs.tex:211-415 | once a driver is entered into the tables that the initialisers leave, nothing is in use, mounted or unwritten and the logical disk is the devices, as the root mount needs |
| `Mounting.ColdStartMountsRoot` | doc/tex/fs.tex:502-524 | from the initialisers through the root driver's registration: a well-formed device is mounted, and the server is left with a sound cache, a coherent inode table, nothing unwritten and no block in use |
| `Mounting.RootSuperFields` | doc/tex/fs.tex:850-890 | mounting stores the time of mount, one more mount (16 bits wide), the unclean state and the path "/" in the superblock, and changes no other on-device byte |
| `Mounting.ShiftDoubles` | doc/tex/fs.tex:892-892 | the block size is 1024 at a logarithm of 0 and doubles with each step while it fits |
| `Mounting.RootSuperGeo` | doc/tex/fs.tex:850-896 | the fields that mounting fills in leave those that place inodes as the device has them |
| `Mounting.MountRootGives` | doc/tex/fs.tex:530-903 | mounting the root from initial tables does not panic, makes it the only mounted device, reads its root inode off the unchanged logical disk, and records that slot in the superblock, of which every byte that mounting does not store is the device's |
| `Mounting.RegisterRootGives` | doc/tex/fs.tex:502-524 | after the root driver's registration the root directory, the working directory and the superblock's root inode are one record with count 3; cache and inode table are sound and nothing is unwritten |
| `Floppy.FloppyBoots` | doc/tex/fs.tex:502-524 | a concrete device image that the server boots from |
| `Bytes.Memcpy` | doc/tex/fs.tex:869-880 | the copying loop replaces exactly the n destination bytes by the source bytes |
| `Server.FileServer.constructor` | doc/tex/fs.tex:211-415 | the tables as block_init, inode_init, super_init and dev_init leave them |
| `Server.FileServer.DevRw` | doc/tex/fs.tex:737-775 | dev_rw on block devices, over the driver row, the images and the bytes of the device number: the exact range of the one unit's image is transferred and its size returned, or the error is returned negated and recorded and nothing is transferred |
| `Server.FileServer.FindSuper` | doc/tex/fs.tex:629-645 | the search returns the first slot of the device, or none if there is none |
| `Server.FileServer.RwBlock` | doc/tex/fs.tex:710-796 | block_rw: clean blocks are left alone, dirty ones transferred and marked clean, and a write stamps the device's superblock |
| `Server.FileServer.SearchBlock` | doc/tex/fs.tex:667-679 | the walk along prev follows the ring backwards from its most recently used end, visits no slot twice, stops at the slot of the block if there is one, and otherwise visits every slot and finds none |
| `Server.FileServer.SearchFree` | doc/tex/fs.tex:687-704 | the walk along next follows the ring from lru, visits no slot twice, stops at the first unused slot if there is one, and otherwise visits every slot and finds none |
| `Server.FileServer.GetBlock` | doc/tex/fs.tex:657-807 | block_get in place does what the transition that the run theorems are about does, and changes nothing when it panics |
| `Server.FileServer.PutBlock` | doc/tex/fs.tex:820-843 | block_put in place, in all three modes, NULL included; images, superblocks, clock, error code and dirty flag stay when the mode or another holder forbids the write |
| `Server.FileServer.FindGroup` | doc/tex/fs.tex:989-1033 | group_find in place: the new state, and block and offset of the inode |
| `Server.FileServer.RwInode` | doc/tex/fs.tex:948-1071 | inode_rw in place: cache, devices and the one record change as the transition says, and no other record does |
| `Server.FileServer.GetInode` | doc/tex/fs.tex:907-1080 | inode_get in place: the slot, the table and the state below it |
| `Server.FileServer.ReadSuper` | doc/tex/fs.tex:609-816 | super_read in place: the slot filled, a full table, or a panic |
| `Server.FileServer.MountRoot` | doc/tex/fs.tex:530-903 | mount_root in place, the panic on an earlier error included |
| `Server.FileServer.Register` | doc/tex/fs.tex:502-524 | fs_register in place: the row that the driver's kind names has the process at its major, and every other entry of both rows is as before; for any driver but the root's every other table and both directories stay; the root's leads to mounting and sets the directories |

## Left out

- Write-out of superblocks (`super_write`), `umount`, the sync system call and `mount` of further file systems: the listings do not show them.
- `block_find`, file reading and writing, directories, path names and permissions, the descriptor and process tables: they are clients of the layer modelled here; only the root and working directories are kept, for the root mount.
- Messages between the server and the drivers, and replies that answer another request: a driver is its bytes plus the rule that it serves a range or refuses.
- Character devices in `dev_rw` and `dev_open_close`: their rows of the driver table are kept, their transfers are not.
- `frag_size` and the superblock fields that no modelled function reads: they are computed or copied, never used.
- `recently_used`, `dev_sync`, `dev_purge` and `inode_put` are modelled and proved (`Ring.Spliced`, `CacheProofs.SyncWrites`, `CacheProofs.PurgeKeeps`, `CacheProofs.PurgeOrder`, `TableSteps.InodePutKeeps`, `TableSteps.LastPutStamps`) from src/fs/block.c and src/fs/inode.c, which are not listed in doc/tex/fs.tex and so have no row of their own.
- Aliasing of a block's bytes: holders change a block through its slot, not through a pointer kept after the put.
- Requests.HeldNeverStolen: `super_read` is not one of the requests; `Mounting.SuperReadNetZero` says what it does to blocks in use.
- Server.FileServer.DevRw: a driver that transfers only part of a range is not modelled.
- Mounting.MountRootGives: a root device without a well-formed ext2 file system is not covered, since the code checks neither the magic number nor the layout there and the arithmetic of `group_find` is then undefined.
- Mounting.RegisterRootGives: a second registration of the root driver, which would mount a second superblock slot, is not covered.
