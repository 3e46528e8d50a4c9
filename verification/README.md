# Proofs about the Obos-OS kernel

A model, in Dafny, of nine parts of the kernel, with proofs of what they promise. Code that changes state in
place is modelled in place: limb and byte arrays, a volume over an array of disk blocks, linked headers and
control blocks, connection records. Each method is proved against a mathematical specification, and the
promises are proved about that specification for all inputs, all runs and all ways the network may behave.

| part | files | the main results |
|---|---|---|
| X25519 | TwosComplement, Bytes, LimbArithmetic, Field25519, X25519 | the limb code computes the ladder of RFC 7748 for every scalar and point, without overflow, and the ladder takes the scalar's multiple by the formulas of the curve |
| SHA-256 | Sha256 | hashing in pieces gives the padded-message hash of FIPS 180-4 |
| GCM | Gcm | multiplication, GHASH, GCTR, sealing and opening as in NIST SP 800-38D, also when the output overlaps the input |
| file system | FsLayout, FsTree, FsVolume, FsState, FsOps, FsRemove, FsMove, FsData, FsFormat, FsRuns, FsOutcomes, FsOnDisk, FileSystem, FsDry, FsHigh, FsCircle | ownership and disk copies survive every run, whatever fails in it, and the tree exactly the runs without failure; writes read back; a new mount finds the same volume |
| kernel heap | HeapLayout, Heap | the blocks tile the heap, payloads never overlap, giving everything back restores the one first block |
| TLS | TlsSpec, TlsProofs, TlsHandshake, TlsConn | a handshake with a correct server completes, fragmentation does not matter, what is written arrives, nothing unauthentic is delivered, record numbers have no gap |
| TCP | TcpSegment, TcpSpec, TcpProgress, TcpTimers, Tcp | against any loss, repetition and reordering exactly the part of the peer's stream that came in order is delivered; an unanswered opening ends |
| paging | Frames, Paging | the two-level tables refine a flat map, and the boot windows hold together |
| drawing | Canvas, FloodFill, Lines | the flood fill recolours exactly the connected region; a line stays within half a pixel |
| scheduler | SchedulerSpec, Scheduler | the linked queues are sequences, nobody is lost, a ready process runs in bounded time |
| chunked bodies | Dechunk | decoding in place gives the chunks' contents, and of a truncated body a prefix |

`dafny verify dfyconfig.toml` checks everything. The AES block cipher, the SHA-256 compression function, key
agreement and key derivation as seen by TLS, and the content of the hello messages are parameters: the results
hold for any. The disk is an array whose reads and writes succeed.

## Where the code fails, and exactly when

In the file system "valid" means that blocks are owned once and marked, the tables equal their disk copies and the
directories form a tree whose listings, parent links and dots agree; "usable" is all of that but the tree, with every
directory still searchable. The first four failures break the tree and nothing else: requests keep a usable volume
usable (`FsRuns.ServedUsable`), and a valid one valid if and only if they run into none of the four
(`FsRuns.ServedValidIff`).

- `createFile`, `createDir` and `renameFile` look up the whole name but keep 63 bytes of it, so a long name can end up
  in a directory twice: if and only if what is kept is listed there already (`FsRuns.NewName`, `FsRemove.Renames`). A name
  of 64 bytes or more is never found again (`FsRuns.LongNeverFound`).
- `createDir` leaves a directory without "." and ".." behind if and only if the entry takes the last free block
  (`FileSystem.Volume.CreateDir`, condition `FsOps.RunsDry`).
- `renameFile` loses the entry, and its inode with it, if and only if the last block of entries has only one and no
  block is free (`FileSystem.Volume.RenameFile`, condition `FsRemove.LosesEntry`). It also renames "." and "..".
- `deleteFile` keeps the tree if and only if a deleted directory has nothing but its dots (`FileSystem.Volume.DeleteFile`,
  `FsTree.DeletedKeepsTreeIff`); the file manager checks that, `deleteFile` does not.
- The walk up in `moveFile` has no end if and only if it meets neither the root nor the moved directory, which cannot
  happen in a tree (`FsMove.TreeWalks`). It does after ".." has been renamed and what it names deleted: from a formatted
  disk, eight calls lead to a usable volume on which a move walks for ever (`FsCircle.Encircle`).
- `freeBlock` takes the bit index modulo 4096, so it clears the right bit if and only if the block number is below
  4096 (`FileSystem.Volume.FreeBlock`). With 64 full files some file owns a block above (`FsHigh.Overflow`).
- A block of entries that has emptied is forgotten when the next entry takes a new one, so blocks leak: creating a
  file at a block boundary and deleting it again costs one block for good (`FsDry.CreateThenDelete`). In this way the
  conditions of `createDir` and `renameFile` are reached from a formatted disk (`FsDry.Exhaust`), although the inodes of
  a volume can never own all its blocks.
- The free count starts one above the number of clear bits and keeps that distance until the next mount, which sets
  it to the count of the formatting, 204282, whatever has been allocated since (`FileSystem.Volume.CreateSuperBlock`,
  `FileSystem.Volume.Run`, `FileSystem.Volume.LoadSuperBlock`).
- A TCP segment that starts before what is expected is dropped whole, also when it reaches past it
  (`TcpProgress.OutOfOrder`).
- A TCP connection tells its user twice of every passive close, once for the peer's FIN and once when its own is
  acknowledged (`TcpTimers.PassiveCloseTellsTwice`). A due acknowledgement is forgotten if and only if a close is pending
  that can no longer be made (`TcpTimers.TickAcknowledges`).
- When the last process exits it is on the terminated queue and still the current one
  (`Scheduler.System.ExitProcess`, `SchedulerSpec.StepValid`).
- `kmalloc` rounds the size up in 32 bits, which wraps for the top 27 sizes (`HeapLayout.TotalSizeFits`,
  `HeapLayout.TotalSizeWraps`).
- `settingReservedFrames` writes past its table if and only if some reserved region reaches past the frames of the
  low 64 MB (`Frames.FrameTable.SettingReservedFrames`); the kernel's own list has such a region
  (`Frames.KernelRegionsOutside`). It also leaves the last frame of a region free unless the region ends on a frame
  boundary (`Frames.BytesCovered`).
- X25519 of the point 0 is all zeros for every scalar (`X25519.ZeroPointGivesZero`), which is why the handshake
  refuses such a shared secret.

## Model

| member | source | states |
|---|---|---|
| X25519.X25519 | Kernel/Crypto/tlsCrypto.c:586-649 | for all scalars and points, also when the output is one of them, the bytes are those of the RFC 7748 function |
| X25519.EagerSwapRefines | Kernel/Crypto/tlsCrypto.c:612-637 | swapping before and after every step gives the ladder the RFC defines with a pending swap, for every bit count and state |
| X25519.LadderStep | Kernel/Crypto/tlsCrypto.c:617-634 | on reduced limbs the step yields reduced limbs that stand for the RFC step of the elements they stood for |
| X25519.RunLadder | Kernel/Crypto/tlsCrypto.c:612-637 | limbs stay reduced through all 255 rounds, which amount to the ladder on field elements |
| X25519.ScalarMultiple | Kernel/Crypto/tlsCrypto.c:612-637 | every relation that doubles with a step and adds one with a swapped step holds between the final ladder and the clamped scalar: the ladder takes exactly that multiple, whatever is counted |
| X25519.LadderCounts | Kernel/Crypto/tlsCrypto.c:612-637 | from any state and for any bits, the ladder turns a count n into 2^t * n + k % 2^t |
| X25519.StepDoubles | Kernel/Crypto/tlsCrypto.c:617-634 | the first half of a step is the doubling formula of the curve with coefficient 486662, over any modulus |
| X25519.StepAdds | Kernel/Crypto/tlsCrypto.c:617-634 | the second half is the addition of two points whose difference is the input |
| X25519.AffineDivides | Kernel/Crypto/tlsCrypto.c:645-646 | the result times z is x, when the power of z is its inverse |
| X25519.ScalarBits | Kernel/Crypto/tlsCrypto.c:596-601 | the scalar lies between 2^254 and 2^255, is a multiple of 8, and has the bits of the bytes in places 3 to 253 |
| X25519.PointValue | Kernel/Crypto/tlsCrypto.c:509-516 | the point is the little-endian value of its bytes without the top bit, modulo 2^255-19 |
| X25519.ResultCanonical | Kernel/Crypto/tlsCrypto.c:645-647 | the result encodes a value below 2^255-19 |
| X25519.IgnoredBits | Kernel/Crypto/tlsCrypto.c:596-602 | the clamped bits, the top bit of the point and multiples of 2^255-19 never change the result |
| X25519.ZeroPointGivesZero | Kernel/Crypto/tlsCrypto.c:586-649 | the point 0 gives all zero bytes, whatever the scalar |
| Field25519.Car25519 | Kernel/Crypto/tlsCrypto.c:454-464 | the value becomes its remainder by 2^256 plus 38 times its quotient; limbs 1 to 15 are digits and limb 0 is off by no more than that |
| Field25519.CarTwice | Kernel/Crypto/tlsCrypto.c:556-557 | two passes after a product leave limb 0 within 38 of a digit, the others digits, and the residue unchanged |
| Field25519.FAdd | Kernel/Crypto/tlsCrypto.c:518-524 | exact limb by limb, and the sum of the elements, with any aliasing |
| Field25519.FSub | Kernel/Crypto/tlsCrypto.c:526-532 | exact limb by limb, and the difference of the elements, with any aliasing |
| Field25519.FMul | Kernel/Crypto/tlsCrypto.c:534-558 | for limbs within 2^26 the product of the elements, in reduced limbs, with no 64-bit overflow and any aliasing |
| Field25519.FSqr | Kernel/Crypto/tlsCrypto.c:560-563 | the same for a square |
| Field25519.FInv | Kernel/Crypto/tlsCrypto.c:565-584 | the element to the power 2^255-21 |
| Field25519.Sel25519 | Kernel/Crypto/tlsCrypto.c:466-475 | the masked exchange swaps the two arrays or leaves both, by the bit |
| Field25519.Pack25519 | Kernel/Crypto/tlsCrypto.c:477-507 | the little-endian bytes of the unique representative below 2^255-19 |
| Field25519.Unpack25519 | Kernel/Crypto/tlsCrypto.c:509-516 | the value of the bytes without the top bit, in digits |
| Sha256.Hasher.Update | Kernel/Crypto/tlsCrypto.c:129-155 | after any bytes the state is that of the longer message, with its length right over both words |
| Sha256.Hasher.Final | Kernel/Crypto/tlsCrypto.c:157-182 | the fold of the compression over the message padded as section 5.1.1 of FIPS 180-4 says |
| Sha256.Hasher.HashPieces | Kernel/Crypto/tlsCrypto.c:129-182 | any way of cutting a message into pieces gives the hash of the whole |
| Sha256.FoldAppend | Kernel/Crypto/tlsCrypto.c:129-155 | the chain over whole blocks can be split anywhere between blocks |
| Sha256.HashIs | Kernel/Crypto/tlsCrypto.c:114-182 | appending a 1 bit, zeros and the length in bits as a 64-bit number, and compressing the blocks one by one from the eight words of FIPS 180-4, ends with the words of the digest in big-endian order |
| Gcm.GMul | Kernel/Crypto/tlsCrypto.c:330-352 | the product of section 6.3 of SP 800-38D on 128-bit values, from shifts and masks on bytes |
| Gcm.MulOne | Kernel/Crypto/tlsCrypto.c:330-352 | the block with only the first bit set is the unit |
| Gcm.MulX | Kernel/Crypto/tlsCrypto.c:330-352 | multiplying by the block with only the second bit set is one shift, with the reduction 0xE1 when a bit falls off |
| Gcm.MulUnits | Kernel/Crypto/tlsCrypto.c:330-352 | multiplying by the block with only bit i + 1 set is multiplying by the one with only bit i set and shifting once more; with the next row that determines every product |
| Gcm.MulSum | Kernel/Crypto/tlsCrypto.c:330-352 | multiplication distributes over xor |
| Gcm.GhashData | Kernel/Crypto/tlsCrypto.c:354-367 | absorbing the data equals GHASH of its zero-padded blocks |
| Gcm.GhashAppend | Kernel/Crypto/tlsCrypto.c:377-398 | hashing the parts in turn is hashing their concatenation |
| Gcm.GcmTag | Kernel/Crypto/tlsCrypto.c:377-398 | the tag of section 7.1, with both bit lengths as 64-bit words |
| Gcm.TagIs | Kernel/Crypto/tlsCrypto.c:377-398 | the tag is the encrypted first counter block xor GHASH over padded data, padded ciphertext and both lengths in bits, block by block |
| Gcm.GcmCrypt | Kernel/Crypto/tlsCrypto.c:400-421 | GCTR of the input, each byte under the block for its own counter, and nothing else changes, also when output and input overlap with the output not ahead |
| Gcm.GctrByte | Kernel/Crypto/tlsCrypto.c:400-421 | byte i of the output is byte i of the input xor byte i % 16 of the cipher at the block of the nonce and the number 2 + i / 16 |
| Gcm.CounterIs | Kernel/Crypto/tlsCrypto.c:405-410 | a counter block is the nonce followed by the counter as a 32-bit big-endian number |
| Gcm.CountersDiffer | Kernel/Crypto/tlsCrypto.c:405-410 | counter blocks for different counters differ until the counter wraps |
| Gcm.GctrTwice | Kernel/Crypto/tlsCrypto.c:400-421 | applying it twice gives the data back |
| Gcm.GcmSeal | Kernel/Crypto/tlsCrypto.c:431-435 | ciphertext and tag of section 7.1 |
| Gcm.GcmOpen | Kernel/Crypto/tlsCrypto.c:437-447 | succeeds if and only if the tag is right, and leaves the buffer alone otherwise |
| Gcm.OpenSealed | Kernel/Crypto/tlsCrypto.c:431-447 | what was sealed opens to itself with its tag and to nothing with any other |
| Gcm.ConstEq | Kernel/Crypto/tlsCrypto.c:42-50 | the or of all differences is zero exactly for equal bytes |
| FileSystem.Volume.AllocateBlock | Kernel/Fs/superblock.c:403-433 | takes the lowest free block, in memory and on disk; fails exactly when none is free |
| FileSystem.Volume.FreeBlock | Kernel/Fs/superblock.c:435-454 | clears that block's bit and no other if and only if its number is below 4096 |
| FileSystem.Volume.FlushInodeTable | Kernel/Fs/superblock.c:46-61 | the table's blocks hold its encoding and no other block changes |
| FileSystem.Volume.Search | Kernel/Fs/superblock.c:142-160 | the position of the first entry with the name, over all blocks of the directory |
| FileSystem.Volume.FindFile | Kernel/Fs/superblock.c:8-43 | the inode the directory lists under the name, or -1 |
| FileSystem.Volume.AddDirEntry | Kernel/Fs/superblock.c:64-127 | the listing grows by that entry at its end, under the first 63 bytes of the name, in the lowest free block if it needs one; every other node is unchanged; fails, changing nothing, exactly when there is no room |
| FileSystem.Volume.RemoveDirEntry | Kernel/Fs/superblock.c:129-214 | the last entry takes the place of the removed one and every other node is unchanged |
| FileSystem.Volume.CreateFile | Kernel/Fs/superblock.c:530-565 | succeeds exactly when no entry has the name, an inode is unused and there is a slot or a block for the entry, and then lists the lowest free inode, empty; otherwise tree, contents and bitmap are as before; a new file keeps the tree if and only if what is kept of its name is new too |
| FileSystem.Volume.CreateDir | Kernel/Fs/superblock.c:455-503 | as createFile, with "." and ".." in a block of its own; when the disk runs dry in between, exactly a directory without them is left, and ownership, disk copies and count are in order; valid stays valid if and only if that does not happen and the kept name is new |
| FileSystem.Volume.Cd | Kernel/Fs/superblock.c:505-528 | goes to what the name, or the parent link for "..", leads to, and in a valid volume that is exactly the directory the name resolves to |
| FileSystem.Volume.DeleteFile | Kernel/Fs/superblock.c:722-750 | exactly that entry and inode are gone, all its blocks are free again and every other file keeps its contents; valid stays valid if and only if a deleted directory had only its dots |
| FileSystem.Volume.RenameFile | Kernel/Fs/superblock.c:800-828 | exactly the name changes, to what is kept of the new one; when the disk is full at the wrong moment exactly the entry is lost, and ownership, disk copies and count are in order; valid stays valid if and only if neither that, nor a renamed dot, nor a kept name already listed |
| FileSystem.Volume.LiesBelow | Kernel/Fs/superblock.c:860-873 | a walk that ends finds the inode exactly when it is on the way up, and in a valid volume exactly when the directory lies below it |
| FileSystem.Volume.MoveFile | Kernel/Fs/superblock.c:830-919 | succeeds exactly when all checks hold and there is room, which in a valid volume is said of listings, ancestors and bitmap alone; the entry is added there and removed here, parent link and ".." follow, and files keep their contents; in a valid volume this is the tree step, and keeps it valid |
| FsOutcomes.CreatesWhen | Kernel/Fs/superblock.c:530-565 | a file can be created if and only if nothing here has the name, an inode of the tree is unused, and the last block of entries has a slot left or, with fewer than 448 entries, some block is free; when the dots of a directory find no block |
| FsOutcomes.RenamesWhen | Kernel/Fs/superblock.c:800-828 | a name can be changed if and only if it is listed and the new one is not; the entry is lost if and only if the others fill whole blocks and every block is taken |
| FsOutcomes.MovesWhen | Kernel/Fs/superblock.c:830-919 | in a valid volume an entry can be moved if and only if it is not a dot and the destination is another directory that does not lie below it, has nothing of that name and has room, all in terms of tree and bitmap |
| FsOutcomes.DeletesWhen | Kernel/Fs/superblock.c:722-750 | in a valid volume exactly what is listed behind the dots can be deleted |
| FsOutcomes.ChangesWhen | Kernel/Fs/superblock.c:505-528 | and the current directory can be changed to exactly the directories listed, dots included |
| FsOutcomes.FitsWhen | Kernel/Fs/superblock.c:679-720 | a write fits if and only if it has at most 32768 bytes and the blocks its file lacks are no more than the free ones |
| FsOutcomes.CreatedNames | Kernel/Fs/superblock.c:455-565 | afterwards the name stands for the new inode, a new directory has its two dots, and every other name stands for what it did |
| FsOutcomes.DeletedNames | Kernel/Fs/superblock.c:722-750 | afterwards the name stands for nothing, its inode is free, and no other name has changed |
| FsOutcomes.RenamedNames | Kernel/Fs/superblock.c:800-828 | afterwards the new name stands for what the old one did, and no other name has changed |
| FsOutcomes.MovedNames | Kernel/Fs/superblock.c:830-919 | afterwards the name stands for the same inode there and for nothing here, parent and ".." of a moved directory are the new one, and no other name has changed |
| FileSystem.Volume.ReadFile | Kernel/Fs/superblock.c:643-677 | the buffer gets the file's bytes up to the first missing block and keeps the rest |
| FileSystem.Volume.WriteFile | Kernel/Fs/superblock.c:679-720 | the file holds what fits and its size says so; all of it fits if and only if 64 blocks and the free ones suffice; no other node changes |
| FsData.WriteThenRead | Kernel/Fs/superblock.c:643-720 | after a write, reading any number of the written bytes gives exactly those |
| FsData.ReadsBack | Kernel/Fs/superblock.c:643-677 | blocks that hold the pieces of some data give the data back from any block on |
| FsOnDisk.WrittenBytes | Kernel/Fs/superblock.c:679-720 | byte x of what is written lies in block x / 512 of the file at x % 512, with zeros after the last |
| FsOnDisk.ReadByte | Kernel/Fs/superblock.c:643-677 | byte x of what is read comes from there |
| FsOnDisk.ReadEnds | Kernel/Fs/superblock.c:643-677 | and reading ends early only at a missing block |
| FileSystem.Volume.CreateSuperBlock | Kernel/Fs/superblock.c:275-299 | a formatted disk is a valid volume with an empty root, exactly the first 521 blocks taken, and the count one too high |
| FileSystem.Volume.InitializeBitmap | Kernel/Fs/superblock.c:378-401 | exactly the blocks before the data area are marked, in memory and on disk |
| FileSystem.Volume.InitializeINodeMap | Kernel/Fs/superblock.c:370-376 | every inode is blank, in memory and on disk, and no other block changes |
| FileSystem.Volume.CreateRootDirectory | Kernel/Fs/superblock.c:567-599 | the root lists itself as "." and ".." although it was created as an entry of itself |
| FileSystem.Volume.LoadInodeTable | Kernel/Fs/superblock.c:217-235 | the table is what the table's blocks encode |
| FileSystem.Volume.LoadBitmap | Kernel/Fs/superblock.c:254-272 | the bitmap is what its blocks encode |
| FileSystem.Volume.LoadSuperBlock | Kernel/Fs/superblock.c:306-368 | mounting the disk of a usable volume gives the same inodes, bitmap, tree and contents, valid if it was, and the count of the formatting; any other disk is formatted |
| FsVolume.CopiesDetermineTables | Kernel/Fs/superblock.c:217-272 | what loading decodes is what was flushed |
| FsLayout.TableRoundTrip | Kernel/Fs/superblock.c:46-61 | the inode table decodes from its encoding |
| FsLayout.BitsRoundTrip | Kernel/Fs/superblock.c:237-272 | the bitmap decodes from its encoding |
| FsLayout.SlotRoundTrip | Kernel/Fs/superblock.c:107-114 | a directory slot gives back its inode number and name |
| FsOnDisk.SlotLayout | Kernel/Fs/superblock.h:33-37 | a slot is the inode number, lowest byte first, the name and zeros |
| FsOnDisk.INodeLayout | Kernel/Fs/superblock.h:18-25 | kind, size, 64 block numbers, use and parent lie at 0, 4, 8, 264 and 268 of an inode, each with its lowest byte first |
| FsOnDisk.INodeOnDisk | Kernel/Fs/superblock.c:46-61 | between operations byte x of inode i is byte 272 * i + x from block 401 on |
| FsOnDisk.BitOnDisk | Kernel/Fs/superblock.c:403-433 | and the bit of block b is bit b % 8 of byte b / 8 from block 469 on |
| FileSystem.Volume.Serve | Kernel/Fs/superblock.c:455-919 | any request to a usable volume has exactly its effect, failures included, and leaves a usable volume |
| FileSystem.Volume.Run | Kernel/Fs/superblock.c:455-919 | a run of requests goes through states linked by their effects, with ownership and disk copies in order and the count at its distance at the end, and a valid volume if none of them met a failure |
| FsRuns.ServedUsable | Kernel/Fs/superblock.c:455-919 | whatever failed before, no request breaks ownership, the disk copies, the count or the search of a directory |
| FsRuns.ServedValidIff | Kernel/Fs/superblock.c:455-919 | a request to a valid volume leaves a valid one if and only if it meets none of the failures above |
| FsRuns.ValidMayServe | Kernel/Fs/superblock.c:722-750 | in a valid volume every request may be made, except to delete what has a block from 4096 on |
| FsRuns.RunValidIff | Kernel/Fs/superblock.c:455-919 | a volume stays valid throughout a run if and only if no request of it meets a failure |
| FsRuns.RunUsable | Kernel/Fs/superblock.c:455-919 | and usable throughout every run |
| FsRuns.RunKeepsContent | Kernel/Fs/superblock.c:643-720 | a file has the same size and contents after any run, with any failures, that does not write to it or delete it |
| FsRuns.LongNeverFound | Kernel/Fs/superblock.c:8-43 | no lookup finds a name of 64 bytes or more |
| FileSystem.Volume.Remount | Kernel/Fs/superblock.c:306-368 | after any run, with any failures, a new mount finds the same inodes, bitmap, contents and tree |
| FsTree.CreatedKeepsTreeIff | Kernel/Fs/superblock.c:530-565 | adding a fresh inode keeps the tree if and only if the name is new |
| FsTree.DeletedKeepsTreeIff | Kernel/Fs/superblock.c:722-750 | deleting keeps the tree if and only if the inode has no entries but dots |
| FsTree.RenamedKeepsTreeIff | Kernel/Fs/superblock.c:800-828 | a new name for an entry keeps the tree if and only if no other entry has it |
| FsTree.MovedKeepsTree | Kernel/Fs/superblock.c:830-919 | a move to a directory not below the moved inode keeps the tree, so no cycle appears |
| FsMove.TreeWalks | Kernel/Fs/superblock.c:860-873 | in a valid volume the walk up the parent links of the table ends, and meets exactly the inodes above |
| FsMove.WalkCircles | Kernel/Fs/superblock.c:860-873 | a walk that comes back to where it was before the root or the inode it looks for never ends |
| FsTree.NoCycle | Kernel/Fs/superblock.c:860-873 | no inode is its own proper ancestor |
| FsTree.NamedOnce | Kernel/Fs/superblock.c:64-127 | every inode but the root has exactly one entry in the whole tree |
| FsTree.RemoveAtLookup | Kernel/Fs/superblock.c:129-214 | removal with the last entry filling the hole forgets one name and no other |
| FsTree.BareDirectoryBreaksTree | Kernel/Fs/superblock.c:470-475 | a directory without its dots is not a tree any more |
| FsRemove.UnlistedBreaksTree | Kernel/Fs/superblock.c:800-828 | neither is a used inode without an entry |
| FsDry.CreateThenDelete | Kernel/Fs/superblock.c:78-94 | at a block boundary a create and a delete give back tree and contents and leave one block fewer free |
| FsDry.Exhaust | Kernel/Fs/superblock.c:78-94 | creating and deleting files on a formatted disk reaches a valid volume with no free block, on which both failures of a full disk happen |
| FsHigh.OneIsHigh | Kernel/Fs/superblock.c:435-454 | of 64 inodes with all their blocks one owns a block from 4096 on |
| FsHigh.Overflow | Kernel/Fs/superblock.c:435-454 | writing 64 full files to a formatted disk reaches a valid volume with a file that `freeBlock` would free wrongly |
| FsCircle.Encircle | Kernel/Fs/superblock.c:860-873 | creating, renaming and deleting directories on a formatted disk reaches a usable volume on which a move never ends |
| KernelHeap.Heap.FindFreeBlock | Kernel/Memory/heap.c:32-43 | the first free block that is large enough, or none |
| KernelHeap.Heap.SplitBlock | Kernel/Memory/heap.c:18-30 | the rest becomes a free block exactly when it has room for one, and the list still visits the row |
| KernelHeap.Heap.KMalloc | Kernel/Memory/heap.c:63-79 | first fit; fails exactly when nothing is asked for or no free block has room for the size and 12 bytes; the payload is zero and no other byte changes |
| KernelHeap.Heap.UMalloc | Kernel/Memory/heap.c:91-107 | the same without clearing |
| KernelHeap.Heap.MergeBlocks | Kernel/Memory/heap.c:45-61 | ends, with no two free neighbours left and the used blocks untouched |
| KernelHeap.Heap.KFree | Kernel/Memory/heap.c:81-89 | the block is free and merged with its free neighbours; NULL changes nothing |
| KernelHeap.Heap.Run | Kernel/Memory/heap.c:63-117 | any run keeps the tiling, the live pointers are exactly those not given back, and with none left the heap is one block again |
| KernelHeap.Heap.Serve | Kernel/Memory/heap.c:63-89 | which block a request takes or gives back |
| HeapLayout.PayloadsDisjoint | Kernel/Memory/heap.c:63-79 | a byte lies in at most one payload |
| HeapLayout.HeadersApart | Kernel/Memory/heap.c:63-79 | no byte of a header lies in a payload or in another header, so clearing never touches the list |
| HeapLayout.LiveBytesKept | Kernel/Memory/heap.c:63-79 | an allocation leaves the bytes of every live payload |
| HeapLayout.AllocatedKeeps | Kernel/Memory/heap.c:18-43 | taking and splitting a block keeps the tiling in multiples of 16 |
| HeapLayout.FirstFitIs | Kernel/Memory/heap.c:32-43 | a request is met if and only if some free block has room for it and 12 bytes, and the first such block is taken |
| HeapLayout.TakenShape | Kernel/Memory/heap.c:18-30 | the block taken has at most 43 bytes more than asked for; what is left is free right behind it, and no other block changes |
| HeapLayout.ReleasedKeeps | Kernel/Memory/heap.c:45-61 | giving back keeps it, and exactly that block stops being used |
| HeapLayout.ReleaseUndoesAllocate | Kernel/Memory/heap.c:63-89 | giving back what was just taken restores the row |
| HeapLayout.DeterminedByUsed | Kernel/Memory/heap.c:45-61 | with no free neighbours the used blocks determine the whole row |
| HeapLayout.NothingLive | Kernel/Memory/heap.c:45-61 | with nothing live there is one free block from start to end |
| HeapLayout.TotalSizeFits | Kernel/Memory/heap.c:13-16 | the rounded size holds header and payload if and only if size + 27 does not wrap, and is then the least such multiple of 16 |
| HeapLayout.TotalSizeWraps | Kernel/Memory/heap.c:13-16 | a size for which the rounding wraps |
| Tls.TlsConn.Feed | Kernel/Crypto/tls.c:498-532 | feeding a buffer in pieces as large as fit is feeding its bytes one by one, and the buffers are never outgrown |
| TlsSpec.FeedAppend | Kernel/Crypto/tls.c:498-532 | feeding two parts is feeding their concatenation |
| TlsProofs.PiecesDoNotMatter | Kernel/Crypto/tls.c:498-532 | state, output and delivered data do not depend on how the bytes are cut |
| TlsProofs.FeedSound | Kernel/Crypto/tls.c:360-532 | for all bytes the record and handshake buffers stay within bounds and nothing is delivered before the handshake is through |
| TlsProofs.ActsSound | Kernel/Crypto/tls.c:171-559 | the same over every run of starting, feeding, writing and closing |
| TlsProofs.HandleOrdered | Kernel/Crypto/tls.c:235-358 | a message makes the connection ready only by being the right Finished, after ours and after the peer's switch to encryption |
| TlsProofs.DeliveredIsAuthentic | Kernel/Crypto/tls.c:404-496 | whatever is delivered is the content of one application record authentic under the peer's key and the next number |
| TlsProofs.WrittenArrives | Kernel/Crypto/tls.c:89-120 | feeding a peer in step with the records of a write delivers exactly the written bytes and keeps the two in step |
| TlsProofs.AnyCutArrives | Kernel/Crypto/tls.c:498-549 | also when the network cuts the records anywhere |
| TlsProofs.SentNoncesDistinct | Kernel/Crypto/tls.c:44-63 | of 2^64 encrypted records in a row, from handshake, data or close, no two carry the same nonce |
| TlsProofs.NoncesDistinct | Kernel/Crypto/tls.c:44-63 | nonces of different numbers differ until the 64-bit counter wraps |
| Tls.TlsConn.SeqNext | Kernel/Crypto/tls.c:56-63 | the two words count modulo 2^64 |
| Tls.TlsConn.SendRecord | Kernel/Crypto/tls.c:89-120 | the record of section 6.2.3.3 of RFC 5246 for the connection's keys and number, built in the output buffer |
| Tls.TlsConn.OpenBody | Kernel/Crypto/tls.c:410-439 | decrypting in place, 8 bytes ahead of its own input, gives the record's content, and only when the tag is right |
| Tls.TlsConn.ProcessRecord | Kernel/Crypto/tls.c:404-496 | a whole record has the effect of the specified step, and on any error the connection fails |
| Tls.TlsConn.ProcessHandshake | Kernel/Crypto/tls.c:360-402 | complete messages are taken from the front of the buffer and the rest moves down |
| Tls.TlsConn.HandleHelloDone | Kernel/Crypto/tls.c:304-341 | key share, change of cipher and Finished are sent in that order, and an all-zero secret is refused |
| TlsHandshake.HelloRead | Kernel/Crypto/tls.c:235-263 | a ServerHello built from 32 random bytes, any session id, one of the two suites and any extensions is read for exactly these |
| TlsHandshake.HelloOnly | Kernel/Crypto/tls.c:235-263 | nothing else is accepted as one |
| TlsHandshake.KeyRead | Kernel/Crypto/tls.c:265-275 | a ServerKeyExchange built for x25519 from a key and a signature sets the server's key to that key |
| TlsHandshake.KeyOnly | Kernel/Crypto/tls.c:265-275 | nothing else is accepted as one |
| TlsHandshake.FinishSends | Kernel/Crypto/tls.c:304-341 | the answer byte for byte: key share, change of cipher, and the encrypted Finished over everything said, under keys derived from the secret and both randoms |
| TlsHandshake.AskedAnswers | Kernel/Crypto/tls.c:304-341 | a server that asked for a certificate gets an empty one first |
| TlsHandshake.ProcessSplit | Kernel/Crypto/tls.c:360-402 | cutting the messages anywhere between records leads to the same connection |
| TlsHandshake.FlightArrives | Kernel/Crypto/tls.c:235-402 | a server's hello, certificate, key and done, in any number of records, make the connection send its answer |
| TlsHandshake.EndArrives | Kernel/Crypto/tls.c:343-358 | the change of cipher and the right Finished under the server's key make it ready |
| TlsHandshake.Completes | Kernel/Crypto/tls.c:171-532 | so a handshake with a correct server completes, however its messages are cut into records and the records by the network |
| TlsHandshake.StartWaits | Kernel/Crypto/tls.c:171-233 | the hello goes out in a record of its own and the connection waits for the server |
| TlsHandshake.RecordOnWire | Kernel/Crypto/tls.c:89-120 | an encrypted record byte for byte: header, number, ciphertext and tag, with nonce and associated data |
| TlsHandshake.CloseArrives | Kernel/Crypto/tls.c:551-559 | the closing alert of one end closes the other |
| TlsHandshake.AlertTaken | Kernel/Crypto/tls.c:449-463 | an alert in the clear: code 0 closes, level 2 fails, anything else is only recorded |
| Tls.TlsConn.Write | Kernel/Crypto/tls.c:534-549 | records of at most 16384 bytes in order, only when the connection is ready |
| TcpSegment.TcpChecksum | Kernel/Network/tcp.c:37-65 | the ones' complement sum over pseudo header and segment |
| TcpSegment.ChecksumVerifies | Kernel/Network/tcp.c:52-65 | with the checksum in place a segment verifies from either end |
| TcpSegment.SentIsReceived | Kernel/Network/tcp.c:67-92 | a segment that is sent passes the receiver's check and parses to itself |
| TcpSegment.WireFormat | Kernel/Network/tcp.c:67-92 | where ports, numbers, header length, flags, window and data lie in the bytes of a segment |
| TcpSegment.VerifiesWhen | Kernel/Network/tcp.c:37-65 | a segment verifies if and only if the sum over both addresses, protocol, length and all its words is a multiple of 65535 |
| Tcp.TcpConn.SendSegment | Kernel/Network/tcp.c:67-92 | the bytes handed to IP encode the segment |
| Tcp.TcpConn.Receive | Kernel/Network/tcp.c:173-286 | any bytes have the effect of the specified step, wrong checksums and strange peers included |
| Tcp.TcpConn.Send | Kernel/Network/tcp.c:118-135 | data goes out in segments of at most 1400 bytes while the connection is open |
| TcpTimers.GivesUp | Kernel/Network/tcp.c:148-171 | an opening nobody answers sends its SYN again with every 50th timer event, five times, and closes with the 300th, whatever the user does meanwhile |
| TcpTimers.CloseAnswers | Kernel/Network/tcp.c:148-171 | the peer's FIN is answered by one FIN with the next timer event |
| TcpTimers.TickAcknowledges | Kernel/Network/tcp.c:148-171 | a due acknowledgement is sent with the next timer event if and only if no close is pending that can no longer be made |
| TcpTimers.AtMostTwice | Kernel/Network/tcp.c:173-286 | whatever arrives, the user is told at most twice that a connection closes |
| TcpTimers.PassiveCloseTellsTwice | Kernel/Network/tcp.c:173-286 | and twice in every close by the peer |
| TcpSpec.RunFollows | Kernel/Network/tcp.c:94-286 | in every run, bare acknowledgements with any number included, the delivered bytes are a prefix of the peer's stream, rcvNxt counts them modulo 2^32, and CLOSE_WAIT means all of them are here |
| TcpSpec.TakeFollows | Kernel/Network/tcp.c:214-286 | any segment of the peer keeps that, whenever and however often it arrives |
| TcpSpec.SendCovers | Kernel/Network/tcp.c:118-135 | the segments of a send carry exactly its data, numbered without gaps |
| TcpProgress.SynAckEstablishes | Kernel/Network/tcp.c:210-220 | the answer to the SYN establishes the connection and sets rcvNxt to the number behind its own |
| TcpProgress.DataIsDelivered | Kernel/Network/tcp.c:246-285 | data with the expected number is delivered; rcvNxt advances by its length, plus 1 for a FIN, and an acknowledgement is due |
| TcpProgress.OutOfOrder | Kernel/Network/tcp.c:246-262 | data with any other number is dropped and acknowledged again, even when it contains what is expected |
| TcpProgress.FinIsTaken | Kernel/Network/tcp.c:264-285 | the FIN in its turn leads to CLOSE_WAIT and tells the user |
| TcpProgress.RunDelivers | Kernel/Network/tcp.c:148-286 | over any run, with loss, repetition and reordering, exactly the pieces that have come in order are delivered, and when all have, CLOSE_WAIT is reached |
| TcpProgress.WholeStream | Kernel/Network/tcp.c:94-286 | so a run that contains the answer to the SYN and every piece in order delivers the whole stream |
| TcpProgress.SentIsCut | Kernel/Network/tcp.c:118-146 | what this end sends and closes behind is a stream of that form for its peer |
| TcpProgress.ConnectSends | Kernel/Network/tcp.c:94-116 | opening sends one SYN and waits for the answer to it |
| TcpProgress.SendAddresses | Kernel/Network/tcp.c:118-135 | data goes from this end to the other with PSH and ACK, acknowledging all that is here |
| TcpProgress.CloseSends | Kernel/Network/tcp.c:137-146 | closing sends a FIN with the number behind everything sent |
| Paging.PageTables.MapPage | Kernel/Memory/paging.c:203-214 | the translation of that page changes and of no other; succeeds if and only if the table is there or a frame is free |
| Paging.PageTables.GetOrCreatePageTable | Kernel/Memory/paging.c:174-199 | a new table comes from a free frame and changes no translation; succeeds if and only if the table is there or a frame is free |
| Paging.PageTables.MapMemoryRegion | Kernel/Memory/paging.c:157-172 | exactly the pages of the region go to the pages of the physical one; succeeds if and only if as many frames are free as tables are missing, and takes exactly those |
| Paging.RegionTranslates | Kernel/Memory/paging.c:157-172 | every address v + i of an aligned region translates to p + i |
| Paging.SetOne | Kernel/Memory/paging.c:203-214 | an entry written in the shared tables affects one page, because table frames are distinct |
| Paging.PageTables.TranslateVirtualToPhysical | Kernel/Memory/paging.c:129-153 | the walk gives the flat map's answer for the low 32 bits of the address, 0 for none |
| Paging.WalkIs | Kernel/Memory/paging.c:129-153 | a translation is the processor's walk: bits 22 to 31 select the table and bits 12 to 21 its entry |
| Paging.PageTables.InitializePaging | Kernel/Memory/paging.c:12-100 | set-up succeeds if and only if 29 frames are free besides the directory's; then all windows and user pages are mapped at once, the user pages to frames of their own |
| Paging.PageTables.BootTranslations | Kernel/Memory/paging.c:12-100 | every 32-bit address: low memory and frame buffer at their own, kernel, heap and stack 0xC0000000 above theirs, two pages of code and one of stack for the user, and nothing else |
| Frames.FrameTable.SettingReservedFrames | Kernel/Memory/memoryMap.c:173-188 | a frame is free if and only if no reserved region covers it; nothing past the table is written if and only if all regions end inside |
| Frames.KernelRegionsOutside | Kernel/Memory/memoryMap.c:145-154 | the kernel's own regions never all end inside |
| Frames.BytesCovered | Kernel/Memory/memoryMap.c:173-188 | every byte of a region is in a reserved frame if and only if it ends on a frame boundary |
| Frames.FrameTable.AllocateFreeFrame | Kernel/Memory/memoryMap.c:214-226 | the lowest free frame; fails exactly when none is free |
| Frames.FreeUndoesAllocate | Kernel/Memory/memoryMap.c:202-226 | freeing the frame just taken restores the table |
| FloodFill.Fill | Kernel/Desktop/paint.c:190-227 | exactly the cells joined to the seed through its colour change; the stack never overflows and the loop ends |
| FloodFill.FillComplete | Kernel/Desktop/paint.c:190-227 | when nothing waits the whole region is done |
| FloodFill.AdjacentIs | Kernel/Desktop/paint.c:190-227 | cells are joined when they are next to each other in a row or in a column |
| Lines.DrawLine | Kernel/Desktop/paint.c:153-180 | exactly the cells under the brush at the max(dx, dy) + 1 points of the line are painted; the walk meets its target and ends |
| Lines.HalfPixel | Kernel/Desktop/paint.c:153-180 | every point is within half a pixel of the true line |
| Lines.PointsStep | Kernel/Desktop/paint.c:153-180 | each point is one step on the major axis and at most one on the other |
| Lines.PointsInBox | Kernel/Desktop/paint.c:153-180 | the points begin and end at the two ends and never leave their box |
| Lines.Stamp | Kernel/Desktop/paint.c:140-151 | exactly the cells of the canvas under the brush change |
| Scheduler.ProcessQueue.Push | Kernel/Processes/processQueue.c:9-27 | the linked list stands for the sequence with the block at its end |
| Scheduler.ProcessQueue.Pop | Kernel/Processes/processQueue.c:29-48 | the first block comes out with no links, the rest stay in order |
| Scheduler.ProcessQueue.RemoveProcess | Kernel/Processes/processQueue.c:54-70 | exactly that block is gone, wherever it was |
| Scheduler.System.Schedule | Kernel/Processes/scheduler.c:3-21 | the first ready process runs and a running one goes to the end of the queue; with nobody ready nothing changes |
| Scheduler.System.Tick | Kernel/Processes/scheduler.c:34-47 | round robin, with full slices for all that wait |
| Scheduler.System.ExitProcess | Kernel/Processes/processManager.c:63-75 | the running process ends on the terminated queue and the next one runs; with nobody ready it is queued and still the current one |
| Scheduler.System.Serve | Kernel/Processes/scheduler.c:3-54 | the linked system follows the abstract one, event by event |
| SchedulerSpec.StepValid | Kernel/Processes/scheduler.c:3-54 | nothing is queued twice or queued while running, and slices are within bounds, after every event if and only if it is not the end of the last process |
| SchedulerSpec.NobodyIsLost | Kernel/Processes/scheduler.c:3-54 | no event loses a process, only creation adds one, and only the last one to end is there twice |
| SchedulerSpec.RunsInTime | Kernel/Processes/scheduler.c:3-54 | a ready process at position k has run after the current slice and 20 * k more ticks, whatever else happens |
| SchedulerSpec.RoundRobin | Kernel/Processes/scheduler.c:3-47 | with timer ticks alone process n / 20 of the round is running after n ticks, and after a whole round everything is as at its start |
| SchedulerSpec.HandsOver | Kernel/Processes/scheduler.c:3-54 | giving up hands over to the next and queues the process last, a new process is queued last, and one that ends is replaced by the next |
| Dechunk.Run | Kernel/Desktop/browser.c:1881-1910 | the bytes from the start to the result are the decoding of the body, the write index never passes the read index, and the loop ends on all inputs |
| Dechunk.BodyDecodes | Kernel/Desktop/browser.c:1881-1910 | a body well formed by section 7.1 of RFC 9112 decodes to the concatenation of its chunks |
| Dechunk.HexReads | Kernel/Desktop/browser.c:1887-1892 | the digits of a number below 2^32 in hexadecimal, in either case, are read as that number |
| Dechunk.WrittenBodyDecodes | Kernel/Desktop/browser.c:1881-1910 | pieces written behind their sizes in hexadecimal, with a size of 0 at the end, decode to the pieces |
| Dechunk.TruncationGivesPrefix | Kernel/Desktop/browser.c:1881-1910 | what a truncated input decodes to is a prefix of what the whole decodes to |
| Dechunk.CutBodyDecodes | Kernel/Desktop/browser.c:1881-1910 | a well-formed body cut anywhere decodes to a prefix of its contents |

## Left out

- Primality of 2^255-19 and the curve's group law: the inverse is an exponentiation, the ladder is the RFC's.
- AES rounds, S-box and key schedule, and the SHA-256 compression function, are any functions of the right types.
- HMAC, the pseudo-random function, the hello's content and name checks, and error texts of TLS.
- FileSystem.Volume.DeleteFile: requires that the inode is not the current directory and has its blocks below 4096; `deleteFile` checks neither, and what it then does to the bitmap is left to `FreeBlock`.
- FileSystem.Volume.WriteFile: requires that a name which is found names a used inode, as it does in every valid volume; an inode that was freed while still listed elsewhere would be given blocks.
- FileSystem.Volume.MoveFile: requires that the walk ends, which the code does not check; `WalkCircles` says when it does not.
- FileSystem.Volume.CreateFile: requires a name without a zero byte, which C ends a name with.
- The two `return;` without a value in `writeFile` are modelled as failures.
- FileSystem.Volume.Serve: does not make the requests the operations leave to their callers to rule out (`FsRuns.MayServe`): the ones named above, and going to a directory that has been freed.
- Disk errors, and running out of kernel memory inside a file-system operation.
- KernelHeap.Heap.KMalloc: requires that size + 27 does not wrap in 32 bits; headers are kept in a map by address, apart from the bytes, which `HeadersApart` justifies.
- KernelHeap.Heap.KFree: requires a pointer that is live; the code trusts its callers.
- Frames.FrameTable.AllocateFrame: requires an address below 64 MB; the code indexes without a check.
- Paging: permission bits, user-mode entry and the page-fault printer; `kernelPanic` on missing memory is the result false. `parseMemoryMap` and the limit of its region array.
- Scheduler.PCB: the byte-wide number of a process wraps after 256 creations; in the model it stands for the control block itself, and nothing in the kernel reads it. Stack switching, and the waiting queue, which nothing uses.
- Tcp: of `onData` the bytes are recorded and of `onClose` the number of calls; that the acknowledged number only grows is not claimed, because the code does not see to it.
- X25519.Coordinates: the array of 80 working limbs is five arrays of 16.
- FloodFill.Fill: for canvases of at most 65536 cells, because the stack holds 16-bit indices; the colour palette and the window around the canvas.
- Printing, windows, sound, ports and all assembly.
