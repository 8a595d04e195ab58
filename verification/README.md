# A verified model of the `Old/OS` storage stack and three small machines

This project models the three storage layers under `Old/OS`, and three machines
from other directories, as Dafny classes over values, and proves that each of
them behaves like something much simpler.

* **The block file system (SFS)** — a bitmap allocator, an on-disk list of
  directories, inodes, chains of frames that hold 127 block ids each, and
  byte-wise reads and writes through a table of descriptors. The disk is a
  sequence of blocks that grows when a block past its end is written; a block is
  kept as the struct last written to it (`SfsCodec` shows that the structs
  survive the trip through 512 bytes, and `SfsStored` that in every reachable
  state the structs on the disk are such). The invariant (`SfsVolume.Inv`) gives
  every block in use exactly one owner, the place of the one pointer to it. A user
  sees a list of distinct directory names and a map from inode numbers to
  directory, name and bytes; every operation is specified on that view. Any run of
  operations, with the image mounted again at any time, answers as a list of
  directories and a map of files does (`SfsServe`).
* **The datanode's block store on SFS** — `ext_write_block` and `ext_read_block`
  written with SFS operations. Any run of them refines a plain map from file name
  and block number to 1024 bytes.
* **The write-back block cache** in front of a flat disk. Any run of block and
  byte accesses, with the cache opened and closed at any time, gives the answers of
  a plain byte array.
* **The distributed file system** — a namenode, datanodes, and a client that
  pushes, pulls and modifies files. Messages are atomic steps. Any run refines a
  map from names to bytes.
* **The leaky bucket and the traffic source**: conservation, order, rate and delay
  over every interleaving, and the closed form of the cyclic reader.
* **The hill-climbing crossword solver**: what it counts, that it ends, and that
  its result cannot be improved by one replacement.

## Layout

| files | content |
|---|---|
| `DiskBytes`, `Arithmetic`, `Options`, `Streams`, `BlockPath` | shared definitions |
| `SfsLayout`, `SfsCodec`, `SfsBitmap` | blocks, their bytes, the freemap |
| `SfsVolume`, `SfsVolumeLemmas`, `SfsFileLemmas`, `SfsSteps`, `SfsGrow`, `SfsTransfer` | the invariant, the user's view, and what each step does to them |
| `SfsFileSystem` | the SFS operations as methods |
| `SfsReach` | what the invariant means for pointers on the raw disk |
| `SfsStored` | what the backing file holds: structs that can be loaded, bytes that can be read |
| `SfsPlain`, `SfsServe` | the file system as a list and a map; whole runs |
| `SfsStore` | the block store on top of SFS |
| `CacheModel`, `CachedDisk` | the cache on values; the disk with its cache |
| `DfsModel`, `Namenode`, `DfsBlocks`, `DfsCluster` | block assignment; the namenode; where bytes are stored; the whole system |
| `LeakyBucket`, `TrafficSource`, `HillClimb` | the independent machines |
| `Failures` | runs that reach the states in which the code falls short |

`SfsFileSystem.FileSystem.Valid`, `SfsStore.BlockStore.Valid`,
`CachedDisk.Disk.Valid` and `DfsCluster.Cluster.Valid` are kept by every operation,
so they hold in every reachable state.

## Where the code does not do what it is meant to

The model keeps the code as it is. Each of these is stated exactly, and the first
four and the second push come with a run from an empty system that reaches them.

* `sfs_rmdir` of the first of several directories takes the whole list off
  (`SfsReach.RmdirKeepsTheRest`, an if-and-only-if; `Failures.RmdirLosesTheRest`).
* `sfs_remove` frees all that belonged to a file if and only if its size is 0; else
  its content blocks stay marked used (`SfsReach.RemoveFreesAll`,
  `Failures.RemoveLeaks`).
* A transfer that does not start in the first block of a file uses the wrong
  content blocks (`SfsReach.TransferStartsInFirstBlock`, an if-and-only-if;
  `Failures.TransferInSecondBlock`); the contents of reads and writes are therefore
  claimed for a cursor below 512.
* `sfs_mkfs` makes the backing file 1025 blocks long, although 4096 block ids can be
  handed out. A byte of a file is read true, whatever the buffer held, if and only if
  its block lies within the backing file (`SfsStored.ReadsTrueWhenStored`); this
  covers all files while no id above 1024 is in use (`SfsStored.AllReadTrue`), and
  eight files of one byte already reach beyond it (`Failures.ContentBeyondTheEnd`).
  Claims about bytes are made for positions whose block the backing file holds
  (`SfsVolume.StoredBytes`), which takes in all that was written.
* A block id equal to the number of blocks is accepted by the disk although the
  header calls it invalid: a write extends the file (`CachedDisk.Disk.WriteBlock`),
  a read miss leaves an entry of zeros in the cache (`CachedDisk.Disk.ReadBlock`).
  Byte ranges are refused when they reach the last byte.
* The ring of the cache wraps one entry early, so the last entry is never used
  (`CacheModel.CacheOk`).
* A push of a name that already has blocks numbers its blocks from the old count
  (`DfsModel.PushNumbersFromZero`, an if-and-only-if; `Failures.PushedTwice`).
* `modify_file` counts `end - start` bytes: as far as the blocks it sends exist and
  all new blocks are among them, the range is copied correctly if and only if it
  starts at a block and is not one byte longer than whole blocks
  (`DfsBlocks.ModifyDelivers`, also when the file grows).
* A datanode that registers with an id beyond the next one leaves a gap in the table
  (`Namenode.NameServer.RegisterDatanode`, an if-and-only-if).
* Datanode id 10 is ignored although the table has ten places
  (`Namenode.NameServer.RegisterDatanode`).
* A failing tick of the leaky bucket counts one dropped byte, however many were
  lost (`LeakyBucket.FailureMiscounts`, an if-and-only-if).
* Below 20 bytes per second the bucket sends nothing
  (`LeakyBucket.DelayIsBounded`, an if-and-only-if).

## Model

| member | source | states |
|---|---|---|
| SfsCodec.WordBack | Old/OS/pa2/fs.h:14-54 | The four bytes of a 32-bit word make up its value, the lowest byte first, and loading them gives it back |
| SfsCodec.FillsBlock | Old/OS/pa2/fs.h:14-54 | Every struct whose numbers are 32-bit words and whose names fit fills one block exactly |
| SfsCodec.RoundTrip | Old/OS/pa2/fs.h:14-54 | Loading the bytes of the block of such a struct gives the struct back |
| SfsStored.StructsStorable | Old/OS/pa2/fs.h:14-54 | In every state that the operations can reach, the superblock, the freemap and every directory, inode and frame on the disk is such a struct |
| SfsBitmap.EntryFull | Old/OS/pa2/fs.c:42-48 | The comparison with all ones finds exactly the words in which each of the 32 bits is set |
| SfsBitmap.SetBitAddsId | Old/OS/pa2/fs.c:49-56 | Setting bit j of word i adds exactly block id 32i+j+1 to the set of used ids |
| SfsBitmap.ClearBitRemovesId | Old/OS/pa2/fs.c:66-71 | Clearing a bit removes exactly that id |
| SfsBitmap.UsedDetermines | Old/OS/pa2/fs.c:38-72 | The set of used ids determines every word of the freemap |
| SfsBitmap.FreeUndoesAlloc | Old/OS/pa2/fs.c:38-72 | Freeing the block just allocated restores every word of the freemap |
| SfsFileSystem.FileSystem.AllocBlock | Old/OS/pa2/fs.c:38-61 | Returns the lowest free id and adds only that id, with block 1 of the disk updated; returns 0, changing nothing, exactly when all 4096 ids are used |
| SfsFileSystem.FileSystem.FreeBlock | Old/OS/pa2/fs.c:66-72 | Removes exactly the given id from the used ones and updates block 1 |
| SfsFileSystem.FileSystem.FlushFreemap | Old/OS/pa2/fs.c:22-33 | Block 1 becomes the in-memory freemap, unless no superblock is loaded |
| SfsFileSystem.FileSystem.NewBlock | Old/OS/pa2/fs.c:38-61 | With room on the volume, an allocation keeps the invariant, every file, directory and descriptor, and yields a block that belongs to nothing |
| SfsFileSystem.FileSystem.Mkfs | Old/OS/pa2/fs.c:244-266 | The result satisfies the invariant: no directory, no file, ids 1 and 2 used, all descriptors closed |
| SfsFileSystem.FileSystem.Reload | Old/OS/pa3/a2/fs.c:769-781 | A volume left in an image is mounted again: same files, same directories, same allocator state |
| SfsFileSystem.FileSystem.FindDir | Old/OS/pa2/fs.c:216-234 | Finds a directory exactly if the name is listed, and the right one |
| SfsFileSystem.FileSystem.Lsdir | Old/OS/pa2/fs.c:402-426 | Counts the listed directories; volume, descriptors and validity stay |
| SfsFileSystem.FileSystem.Mkdir | Old/OS/pa2/fs.c:284-340 | A listed name gives -1 and no change; a new name is appended to the list in the lowest free block; all files, their bytes on disk and the descriptors are kept |
| SfsFileSystem.FileSystem.Rmdir | Old/OS/pa2/fs.c:346-397 | An unknown name or a directory with files gives -1 and no change; otherwise exactly that block is freed and the list is as DirRemoved says; all files, their bytes on disk and the descriptors are kept |
| SfsFileSystem.FileSystem.FindFile | Old/OS/pa2/fs.c:461-479 | Returns the inode number of the file of that name in the directory, 0 exactly if there is none |
| SfsFileSystem.FileSystem.Open | Old/OS/pa2/fs.c:432-503 | -1 exactly without a free descriptor or without the directory; else the lowest free descriptor is opened on the existing file, unchanged, or on a new empty one, in the lowest free block and the first free slot of the directory |
| SfsFileSystem.FileSystem.Close | Old/OS/pa2/fs.c:508-512 | Only that descriptor is closed |
| SfsFileSystem.FileSystem.Remove | Old/OS/pa2/fs.c:519-555 | Exactly the inode and the frames of the file are freed; all other files with their bytes on disk, all directories and all other descriptors are kept |
| SfsFileSystem.FileSystem.FreeFrames | Old/OS/pa2/fs.c:543-551 | The walk frees exactly the frames of the chain |
| SfsFileSystem.FileSystem.ResizeFile | Old/OS/pa2/fs.c:79-165 | A chain that holds newSize bytes stays as it is; any other gets the fewest frames that hold them, with the old chain and its bytes as a prefix; exactly 128 ids per added frame become used |
| SfsFileSystem.FileSystem.LinkAllFrames | Old/OS/pa2/fs.c:116-156 | Linking the reserved frames one by one yields, but for the inode on disk, the grown volume |
| SfsGrow.ResizeStep | Old/OS/pa2/fs.c:144-156 | One round of the resize, with 127 fresh content blocks, keeps the invariant, the reserve and all other descriptors |
| SfsFileLemmas.FrameAppendedInv | Old/OS/pa2/fs.c:144-156 | Linking a frame of fresh blocks behind a chain keeps the ownership invariant |
| SfsFileSystem.FileSystem.GetFileContent | Old/OS/pa2/fs.c:175-209 | Index k of the result is the (start+k)-th id of the flattened frame chain, for all k up to end-start, across frames; the count is returned and the rest of the array kept |
| SfsFileSystem.FileSystem.Write | Old/OS/pa2/fs.c:598-661 | From a cursor in block 0, the bytes at the cursor become buf and are stored; every other stored byte of the file, every other file and all directories are kept; the file gets a frame only if its bytes need it, from the lowest free blocks in order; the cursor advances |
| SfsTransfer.SpliceStep | Old/OS/pa2/fs.c:621-654 | One round of the transfer, partial or whole, extends the written range by the bytes of that round and changes nothing else |
| SfsFileSystem.FileSystem.Read | Old/OS/pa2/fs.c:670-727 | Delivers the stored bytes from the cursor on and leaves the rest of the buffer; past the end nothing is read; the volume is unchanged |
| SfsTransfer.ReadBack | Old/OS/pa2/fs.c:598-727 | A read from the start of the file delivers what the last write stored, and the bytes stored before it |
| SfsFileSystem.FileSystem.Seek | Old/OS/pa2/fs.c:739-749 | Moves only the cursor of that descriptor, to the sum modulo 2^32; 1 for an unknown mode |
| SfsFileSystem.FileSystem.ReadBlock | Old/OS/pa2/ext.c:6-11 | Delivers the 512 bytes of a block that the backing file has, and leaves the buffer as it is for any other |
| SfsStored.ReadsTrueWhenStored | Old/OS/pa2/ext.c:6-11 | A read gives byte p of a file for every initial content of the buffer if and only if the block of p lies within the backing file |
| SfsStored.AllReadTrue | Old/OS/pa2/fs.c:258-260 | While no id above 1024 is in use, every byte of every file is read true |
| SfsVolumeLemmas.ContentDisjoint | Old/OS/pa2/fs.c:79-165 | Two places of any two files never hold the same content block |
| SfsReach.WalkDirsVisits | Old/OS/pa2/fs.c:216-234 | Following the links from the superblock visits exactly the directories, in order, then ends |
| SfsReach.WalkFramesVisits | Old/OS/pa2/fs.c:543-551 | Following the links from an inode visits exactly its chain, then ends |
| SfsReach.ReachedIsUsed | Old/OS/pa2/fs.c:38-72 | Every block that pointers lead to is marked used and is not block 0, 1 or 2 |
| SfsReach.PathsAreUnique | Old/OS/pa2/fs.c:284-555 | Every block is reached on one path only: no chain is cyclic, no two files share a block |
| SfsReach.SoundInEveryState | Old/OS/pa2/fs.c:38-727 | In every state that the operations can reach, the freemap in memory and on disk marks each block that pointers lead to, and each is reached on one path only |
| SfsReach.WalksEnd | Old/OS/pa2/fs.c:312-336 | Every walk ends after as many steps as its chain is long, and not before |
| SfsReach.RmdirKeepsTheRest | Old/OS/pa2/fs.c:374-378 | The rest of the list survives rmdir if and only if the directory was not the first of several |
| SfsReach.RemoveLeaksContent | Old/OS/pa2/fs.c:543-551 | Every content block of a removed file stays marked used |
| SfsReach.RemoveFreesAll | Old/OS/pa2/fs.c:543-551 | remove frees exactly the blocks of the file if and only if the size in its inode is 0, that is, it has no frames |
| SfsReach.TransferStartsInFirstBlock | Old/OS/pa2/fs.c:186-206 | All ids a transfer looks up are the right ones if and only if it starts in block 0 |
| SfsPlain.WrittenStays | Old/OS/pa2/test.c:99-118 | Over any run, a file keeps the bytes written to it until it is written to or removed itself, whatever happens to other files, directories and descriptors and across processes |
| SfsPlain.Writing | Old/OS/pa2/fs.c:79-165 | In the plain model as well, a write adds the fewest frames that hold its end, and 128 used blocks for each |
| SfsServe.Serve | Old/OS/pa2/fs.c:244-749 | Any run of mkfs, mkdir, rmdir, lsdir, open, close, remove, write, seek, read and mounting again gives the answers of a list of directories and a map of files, and ends with its directories, files, descriptors and number of used blocks |
| SfsServe.Step | Old/OS/pa2/fs.c:244-749 | One operation keeps the file system a representation of the plain state |
| SfsServe.EmptyOnBoth | Old/OS/pa2/fs.c:362-370 | A directory block has no used slot if and only if the plain model has no file under its number |
| SfsServe.Remount | Old/OS/pa3/a2/fs.c:769-781 | A new process finds all directories and files as the old one left them |
| Failures.RmdirLosesTheRest | Old/OS/pa2/fs.c:374-378 | mkdir a, mkdir b, rmdir a reaches an empty list |
| Failures.RemoveLeaks | Old/OS/pa2/fs.c:543-551 | A file of one byte, made and removed, leaves no file and 127 blocks marked used |
| Failures.TransferInSecondBlock | Old/OS/pa2/fs.c:186-206 | Writing 513 bytes reaches a state in which the next transfer looks up a wrong block |
| Failures.ContentBeyondTheEnd | Old/OS/pa2/ext.c:6-11 | Eight files of one byte reach a state in which a read of an allocated byte depends on the buffer |
| Failures.PushedTwice | Old/OS/pa3/namenode/dfs_namenode.c:148-160 | Two pushes of one name reach an entry whose first block has id 1 |
| BlockPath.DecimalDenotes | Old/OS/pa3/datanode/ext.c:10-15 | The digits of a block number denote it in base ten, without leading zeros |
| SfsStore.BlockStore.WriteBlock | Old/OS/pa3/datanode/exta2.c:23-35 | Directory creation, open, growth, overwrite and close together update the stored map at one path |
| SfsStore.BlockStore.ReadBlock | Old/OS/pa3/datanode/exta2.c:12-21 | The 1024 bytes stored under the path are delivered and the store is unchanged |
| SfsStore.BlockStore.Serve | Old/OS/pa3/datanode/exta2.c:12-35 | Any run of reads and writes of (name, number) gives the answers and the final contents of a plain map |
| SfsStore.ReadsTheLastWrite | Old/OS/pa3/datanode/exta2.c:12-35 | A read delivers the last write to its key, whatever other keys are written in between |
| SfsStore.KeyWritten | Old/OS/pa3/datanode/exta2.c:6-10 | Writing a path changes the block of one key only |
| SfsSteps.FreeSlot | Old/OS/pa2/fs.c:481-502 | A directory with fewer than 97 files has a free slot |
| BlockPath.PathInjective | Old/OS/pa3/datanode/ext.c:10-15 | Two blocks have the same path exactly if file name and number are equal, for all strings and numbers |
| CachedDisk.Disk.constructor | Old/OS/pa1/mydisk.c:16-41 | A new disk reads as zeros |
| CachedDisk.Disk.InitCache | Old/OS/pa1/caching.c:31-47 | An empty cache leaves the contents of the disk as they are |
| CachedDisk.Disk.FindCachedEntry | Old/OS/pa1/caching.c:129-139 | The index of the entry for the block, -1 exactly if none of the occupied ones is |
| CachedDisk.Disk.CreateCachedBlock | Old/OS/pa1/caching.c:81-121 | Returns the entry a block has, or replaces the one at the insert position after writing it back if dirty; position and size advance as the ring says |
| CachedDisk.Disk.MarkDirty | Old/OS/pa1/caching.c:123-127 | Only the entry of that block becomes dirty |
| CachedDisk.Disk.CloseCache | Old/OS/pa1/caching.c:49-66 | Afterwards the backing file holds what the disk held, and the cache is off |
| CachedDisk.Disk.ReadBlock | Old/OS/pa1/mydisk.c:47-99 | Delivers the current block and changes no block; -1 exactly on a hit; a miss makes the block resident as the ring says; exact results and data for bad ids |
| CachedDisk.Disk.WriteBlock | Old/OS/pa1/mydisk.c:101-149 | Changes exactly that block of the disk; -1 exactly on a hit; residency is unchanged; 1 for ids above the number of blocks |
| CachedDisk.Disk.Read | Old/OS/pa1/mydisk.c:151-216 | Delivers a slice of the flat bytes; out of range returns 1 and changes nothing; with n blocks touched and m of them not resident at their turn, latency n on SSD, and n, plus 10 + m if m > 0, on HDD; residency afterwards is that of reading these blocks in order |
| CachedDisk.Disk.Write | Old/OS/pa1/mydisk.c:218-321 | Splices into the flat bytes; out of range returns 1 and changes nothing; with n blocks of which p are touched in part and read first: latency n + p on SSD; on HDD also 10 + q if q > 0 of the p miss when read, and 10 + m if m > 0 of the n miss when written; residency afterwards is that of reading the p blocks |
| CachedDisk.Disk.WritePart | Old/OS/pa1/mydisk.c:248-267 | With the cache on, the write of a partial block is always a hit |
| CachedDisk.Disk.Serve | Old/OS/pa1/mydisk.c:47-321 | Any run of block and byte accesses, with caches opened and closed, gives the answers and final bytes of a plain byte array |
| CacheModel.Fetched | Old/OS/pa1/caching.c:90-120 | Bringing in a block keeps distinct ids, occupied prefix and clean copies, and changes no block of the disk, whatever is evicted |
| CacheModel.HitWritten | Old/OS/pa1/mydisk.c:125-131 | A write to a cached block changes that block only |
| CacheModel.MissWritten | Old/OS/pa1/mydisk.c:110-124 | A write past the cache changes that block only and keeps clean copies equal to the file |
| CacheModel.FlushedAll | Old/OS/pa1/caching.c:53-59 | Writing the dirty entries leaves in the file what file and cache together held |
| CacheModel.ResidentExactly | Old/OS/pa1/caching.c:90-119 | With `cache_blocks - 1` usable entries, a block brought in by a miss survives `cache_blocks - 2` further misses and falls to the next one, regardless of hits |
| CacheModel.TouchedHoldBytes | Old/OS/pa1/mydisk.c:229-286 | The blocks a transfer touches are exactly those that hold a byte of the range |
| CacheModel.PartialsAre | Old/OS/pa1/mydisk.c:229-286 | The rounds that move less than a block are those of the blocks that the range does not cover |
| CacheModel.RoundsAre | Old/OS/pa1/mydisk.c:229-286 | A transfer touches the blocks from its first to its last byte, at most two of them in part |
| DfsModel.PushThenGrow | Old/OS/pa3/namenode/dfs_namenode.c:145-169 | For fixed datanodes, a first push followed by a growing modify leaves the same entry as one first push of the larger size |
| DfsModel.FirstPushPlaces | Old/OS/pa3/namenode/dfs_namenode.c:152-169 | Block i of a file pushed once has id i and is on datanode (i mod n)+1 |
| DfsModel.GrowthPlaces | Old/OS/pa3/namenode/dfs_namenode.c:219-278 | When a file grows its old blocks stay; each new block i has id i and is on datanode (i mod n)+1 |
| DfsModel.Balanced | Old/OS/pa3/namenode/dfs_namenode.c:152-169 | Each datanode holds the rounded-down share of the blocks, the first (blocknum mod n) of them one more |
| DfsModel.PushNumbersFromZero | Old/OS/pa3/namenode/dfs_namenode.c:148-160 | A push numbers block i as i if and only if the file had no blocks |
| Namenode.RegistrationKeepsContiguous | Old/OS/pa3/namenode/dfs_namenode.c:85-107 | Ids stay contiguous if and only if a known datanode or the next one registers |
| Namenode.NameServer.RegisterDatanode | Old/OS/pa3/namenode/dfs_namenode.c:69-114 | Exactly one place of the table changes, the count is the number of taken places, ids from 10 on are ignored; the table stays without gaps if and only if the id is at most the next one or ignored |
| Namenode.NameServer.GetFileReceivers | Old/OS/pa3/namenode/dfs_namenode.c:116-180 | Only the entry of that file changes, to the round-robin assignment; with ceil(size/1024) blocks; no answer exactly if the name is unknown and the table full |
| Namenode.NameServer.GetFileUpdatePoint | Old/OS/pa3/namenode/dfs_namenode.c:219-278 | Only new blocks of that file are assigned, and only if it grows, up to ceil(size/1024) blocks; no answer exactly if the name is unknown |
| Namenode.NameServer.GetFileLocation | Old/OS/pa3/namenode/dfs_namenode.c:182-200 | Answers with the entry of the name, exactly if there is one |
| Namenode.NameServer.GetSystemInformation | Old/OS/pa3/namenode/dfs_namenode.c:202-217 | Answers with the registered datanodes, the k-th of which has id k |
| Namenode.NameServer.RequestsDispatcher | Old/OS/pa3/namenode/dfs_namenode.c:280-298 | Response and new table are those of the request's kind |
| DfsBlocks.SentAside | Old/OS/pa3/datanode/dfs_datanode.c:111-115 | Sending blocks of one file leaves all other stored blocks alone |
| DfsBlocks.SentStored | Old/OS/pa3/datanode/dfs_datanode.c:111-115 | A block that was sent is stored where its entry says |
| DfsBlocks.TableUpdated | Old/OS/pa3/namenode/dfs_namenode.c:116-180 | Changing one entry together with its stored blocks keeps table and stores in agreement for all files |
| DfsBlocks.ModifyDelivers | Old/OS/pa3/client/dfs_client.c:35-73 | Where the blocks sent exist and all new blocks are among them, the range start..end is copied, whatever the files hold, if and only if start is at a block and end-start is not a multiple of 1024 |
| DfsBlocks.ModifyMoves | Old/OS/pa3/client/dfs_client.c:35-73 | For any range, byte p of the local file arrives start mod 1024 places too early, and blocks that are not sent stay |
| DfsBlocks.WholeBlocksSpliced | Old/OS/pa3/client/dfs_client.c:35-73 | A modify of whole blocks replaces exactly the range |
| DfsCluster.Cluster.Dispatch | Old/OS/pa3/datanode/dfs_datanode.c:93-127 | A read returns the stored block, a create changes exactly one block file, other requests do nothing |
| DfsCluster.Cluster.Register | Old/OS/pa3/namenode/dfs_namenode.c:69-114 | A registration at any time leaves all files readable |
| DfsCluster.Cluster.Push | Old/OS/pa3/client/dfs_client.c:75-125 | A first push adds the file, filled up to the next multiple of 1024 bytes; it fails exactly if 1000 files are known; all others are kept |
| DfsCluster.Cluster.Pull | Old/OS/pa3/client/dfs_client.c:127-167 | Rebuilds exactly the stored file; none exactly if it was not pushed; nothing changes |
| DfsCluster.Cluster.Modify | Old/OS/pa3/client/dfs_client.c:16-73 | The file becomes the modified one, block by block, also when it grows; all others are kept |
| DfsCluster.Cluster.Serve | Old/OS/pa3/client/dfs_client.c:16-167 | Any run of registrations, pushes, pulls and modifies gives the replies of a plain map from names to bytes |
| DfsCluster.PullAfterPush | Old/OS/pa3/client/dfs_client.c:75-167 | After a push and any operations on other files, a pull rebuilds the file, filled up to the next multiple of 1024 bytes |
| LeakyBucket.Bucket.WriteByte | TelecomProject/TelecomServer/src/telecomserver/LeakyBucket.java:56-66 | While there is room the byte is appended, equal to the number written modulo 256; else it is counted as dropped and the queue stays |
| LeakyBucket.Bucket.Transmit | TelecomProject/TelecomServer/src/telecomserver/LeakyBucket.java:85-103 | Is the tick step; on a failing stream the prefix that got out, the rest lost, one byte counted, no further ticks |
| LeakyBucket.Conservation | TelecomProject/TelecomServer/src/telecomserver/LeakyBucket.java:56-103 | Over every interleaving: written = sent + queued + dropped, the queue fits, and sent then queued is a subsequence of the input in order |
| LeakyBucket.NumbersConserved | TelecomProject/TelecomServer/src/telecomserver/LeakyBucket.java:56-103 | When byte values are written, sent then queued is a subsequence of the written numbers themselves, and the rest is counted as dropped |
| LeakyBucket.Bucket.constructor | TelecomProject/TelecomServer/src/telecomserver/LeakyBucket.java:36-42 | A tick sends a twentieth of the rate, rounded down |
| LeakyBucket.InOrder | TelecomProject/TelecomServer/src/telecomserver/LeakyBucket.java:56-103 | Sent followed by queued is exactly what was there followed by the accepted bytes |
| LeakyBucket.RateBound | TelecomProject/TelecomServer/src/telecomserver/LeakyBucket.java:85-95 | Any k ticks send at most k times the amount, and everything that was queued unless they send exactly that |
| LeakyBucket.DelayBound | TelecomProject/TelecomServer/src/telecomserver/LeakyBucket.java:36-42 | Every queued byte is sent within ceil(capacity/amount) ticks, whatever is written meanwhile |
| LeakyBucket.DelayIsBounded | TelecomProject/TelecomServer/src/telecomserver/LeakyBucket.java:36-42 | There is a bound on the delay if and only if the rate is at least 20 |
| LeakyBucket.FailureMiscounts | TelecomProject/TelecomServer/src/telecomserver/LeakyBucket.java:96-102 | After a failing tick the account of bytes is right if and only if exactly one byte was lost |
| TrafficSource.Source.Tick | TelecomProject/TelecomServer/src/telecomserver/TrafficSource.java:65-101 | After n good ticks exactly n*dataSize bytes are out, the k-th is data[k mod length], and the offset is their number mod the length; a failing tick emits a prefix of the next ones |
| HillClimb.CountConflicts | AI/Assignment 1/csp_solver.py:129-175 | The number of cells on which row and column disagree; a number is given exactly for the boards that are square with words of that length |
| HillClimb.NoConflictsIff | AI/Assignment 1/csp_solver.py:161-175 | No conflicts if and only if across[i][j] = down[j][i] everywhere |
| HillClimb.IsFullState | AI/Assignment 1/csp_solver.py:177-185 | True exactly if every place holds a word of the list |
| HillClimb.ScoreState | AI/Assignment 1/csp_solver.py:197-206 | The number of conflicts of a full board, -1 of any other |
| HillClimb.Neighbours | AI/Assignment 1/csp_solver.py:99-105 | Exactly the boards with one place replaced by a word of the list |
| HillClimb.Round | AI/Assignment 1/csp_solver.py:93-123 | Moves to a neighbour that is better than the board and that no other neighbour beats, or stops on a board that no neighbour beats |
| HillClimb.Climb | AI/Assignment 1/csp_solver.py:88-125 | Goes from board to best neighbour and ends after at most (starting conflicts - final conflicts + 1) rounds on a board on the same places that no single replacement improves, full if the start was; a start that is not full is returned as it is |

## Left out

- Preconditions of SFS: enough free ids for an operation, a free slot on creation, a file open at most once, valid descriptors, names that fit into their fields when something is created; what the code does beyond them is undefined or damages the volume.
- SfsFileSystem.FileSystem.Write: contents are claimed for a cursor below 512 and `cursor + length` below the file size after growth, because the list of block ids is only right there.
- SfsFileSystem.FileSystem.Read: the same, and the length is positive: a read of no bytes at cursor 0 underflows.
- SfsFileSystem.FileSystem.Seek: mode 2 moves from the cursor, as the code does, not from the end.
- SfsFileSystem.FileSystem.NewBlocksFor: the array of new frame ids is a sequence here.
- `sfs_ls`, `sfs_eof` and `sfs_print_info`: printing and one comparison.
- SfsStore.BlockStore.ReadBlock: a path that was never written is excluded; the code would create an empty file and read past its buffers.
- SfsStore.BlockStore.WriteBlock: at most 31 paths, the most that 4096 block ids can hold at 129 blocks each.
- Failures of `fopen`, `fseek`, `fread`, `fwrite` and `malloc`, the sizes of heap buffers, and overflow of C integers.
- CachedDisk.Disk.InitCache: at least two entries, and no cache open; a second `init_cache` would lose dirty blocks.
- CachedDisk.Disk.MarkDirty: the block is cached; the code indexes entry -1 otherwise, against its header.
- Sockets, threads, heartbeat timing and the accept loops: messages are atomic steps, and a datanode is a map of block files kept at an address.
- DfsCluster.Cluster.Push: each name is pushed once and has at most 100 blocks; the contents of the send buffer beyond a short read are an arbitrary parameter.
- DfsCluster.Cluster.Modify: the blocks sent exist afterwards and new blocks are among them; otherwise the client connects to an empty address. Unaligned ranges are modelled, and miscopied as the code does.
- DfsCluster.Cluster.Register: ids register in order; after a gap the round-robin index meets an empty place. A known datanode that registers from a new address keeps its old address and the store there reachable for good, which is why files stay readable at any registration.
- SfsServe.Serve: of the bytes that a read delivers, those never written are not settled; whether an operation meets its preconditions is judged on the plain model.
- The Java scheduler: a run is any sequence of writes and ticks; `schedF.cancel` means that no further tick happens.
- TrafficSource.Source.Tick: the data is at least as long as one tick sends.
- HillClimb.Climb: the words fit the board and n*n is below `sys.maxsize`; reading and printing boards, random restarts and the parsing of keys such as "A1" are not modelled.
