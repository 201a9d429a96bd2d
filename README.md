# Linux 0.11 kernel tables, modelled in Dafny

This project models the table-driven core of a Linux 0.11 kernel. The model
covers the Minix-style file system, the memory manager, the scheduler, and
the process and signal bookkeeping. Every pool of the kernel is a
fixed-size table, and every pointer into such a table becomes a slot index,
with `NONE` (-1) for NULL. A `panic` is a precondition that the caller must
rule out. The kernel's sleeps and retries are collapsed into one pass that
runs with every lock free.

The modules follow the source files:

- `Layout` covers the macros and record layouts of `include/linux/fs.h`.
- `Bits` and `Bitmap` cover `set_bit`, `clear_bit`, `find_first_zero` and
  the bitmap scans of `fs/bitmap.c`.
- `Records` holds the in-memory records: inodes, superblocks, open files
  and tasks.
- `Tables` holds the class `FileSystem`. It owns the inode table, the
  superblock table, the file table and the cached blocks, and it models
  the inode-table operations of `fs/inode.c`.
- `Alloc` covers `new_block`, `free_block`, `new_inode` and `free_inode`.
- `Cache` is the buffer cache of `fs/buffer.c`. It keeps the hash chains,
  the circular free list, the reference counts and the victim choice of
  `getblk`.
- `Bmap` covers the block map of `_bmap`, `bmap` and `create_block`.
- `Truncate` covers `fs/truncate.c`. `TruncateFacts` proves which zones
  it frees.
- `Iref` covers the `iget`/`iput` reference protocol.
- `Supers` covers the superblock table of `fs/super.c`: `get_free_super`,
  `read_super`, `put_super` and `mount_root`.
- `Mount` covers `sys_mount` and `sys_umount` of `fs/super.c`, on the
  slots `namei` returned.
- `Desc` covers the selector and descriptor arithmetic of
  `include/linux/sched.h` and `include/asm/system.h`.
- `Pipes` holds the class `Pipe`, the page and the head and tail of a
  pipe inode, and covers `read_pipe`, `write_pipe` and `sys_pipe` of
  `fs/pipe.c`.
- `BlockDev` covers `block_read` and `block_write` of `fs/block_dev.c`.
- `FileDev` covers `file_read` and `file_write` of `fs/file_dev.c`.
- `Dirs` covers the directory-entry searches of `fs/namei.c`: `match`,
  `find_entry`, `add_entry` and `is_empty_dir`.
- `Namei` covers the path walk of `fs/namei.c`: `permission`,
  `get_dir`, `dir_namei` and `namei`.
- `DirOps` covers `mknod`, `rmdir`, `unlink` and `link`, and `Create`
  covers `mkdir`.
- `OpenNamei` covers `open_namei`.
- `OpenFiles` covers the system calls of `fs/open.c`: `utime`,
  `access`, `chdir`, `chroot`, `chmod`, `chown`, `open`, `creat` and
  `close`.
- `Tasks` holds the class `Kernel`: the task table, `current`, the
  clock and the signal masks of `include/linux/sched.h`.
- `Timers` holds the class `TimerList`, the timer table and the
  `next_timer` list of `add_timer` and `do_timer` in `kernel/sched.c`.
- `Sched` covers `schedule` (the wake-up of signalled tasks and the
  choice of the next task), `do_timer`, `sys_alarm` and `sys_nice` of
  `kernel/sched.c`.
- `Fork` covers `verify_area`, `copy_mem`, `find_empty_process` and
  `copy_process` of `kernel/fork.c`.
- `Exit` covers `release`, `send_sig`, `kill_session`, `sys_kill`,
  `do_exit` and `sys_waitpid` of `kernel/exit.c`.
- `Signal` covers `sys_ssetmask`, `sys_signal`, `sys_sigaction` and
  `do_signal` of `kernel/signal.c`.
- `Sys` covers `sys_setregid`, `sys_setreuid`, `sys_stime`, `sys_brk`,
  `sys_setpgid`, `sys_setsid` and `sys_umask` of `kernel/sys.c`.
- `Memory` holds the class `Mem`, the page-use counts `mem_map` of
  `mm/memory.c`, and covers `get_free_page`, `free_page`,
  `free_page_tables`, `copy_page_tables`, `put_page`, `un_wp_page`,
  `write_verify`, `try_to_share` and `mem_init`.

## Model

| member | source | states |
|---|---|---|
| Layout.Major | include/linux/fs.h:31 | `MAJOR` is the high byte, below 256 |
| Layout.Minor | include/linux/fs.h:32 | `MINOR` is the low byte, below 256 |
| Layout.MajorMinorRecombine | include/linux/fs.h:31-32 | `MAJOR(d)*256 + MINOR(d) == d` for every 16-bit device |
| Layout.MajorMinorInjective | include/linux/fs.h:31-32 | two devices with the same major and minor are the same device |
| Layout.ZmapIndx | include/linux/fs.h:52 | `ZMAP_INDX(n)` is the block `k` with `8192k <= n < 8192(k+1)` |
| Layout.MaskAsWritten | include/linux/fs.h:50-51 | as expanded, `x & BLCK_MASK` keeps only bit 12, so it is 0 or 4096 |
| Layout.MaskIntended | include/linux/fs.h:50-51 | the intended mask gives the bit inside its block; with `ZMAP_INDX` it rebuilds `x` |
| Layout.PipeSize | include/linux/fs.h:64 | `PIPE_SIZE` lies in [0, 4095] and is `head - tail` modulo 4096 |
| Layout.PipeEmptyIffSizeZero | include/linux/fs.h:64-66 | for positions in [0, 4095], `PIPE_EMPTY` holds iff the size is 0, and tail plus size gives the head |
| Pipes.HeadPastTail | include/linux/fs.h:62-64 | the head lies `PIPE_SIZE` bytes past the tail, wrapping at the end of the page |
| Pipes.HeadMoved | fs/pipe.c:70-72 | with the tail fixed, a pipe `k` bytes fuller has its head `k` bytes further on modulo 4096 |
| Pipes.TailMoved | fs/pipe.c:36-38 | with the head fixed, a pipe `k` bytes emptier has its tail `k` bytes further on modulo 4096 |
| Pipes.TakeSize | fs/pipe.c:29-38 | taking `chars` bytes at the tail without passing the end of the page shrinks `PIPE_SIZE` by exactly `chars` |
| Layout.U16Bytes | include/linux/fs.h:88-96 | a 16-bit field encodes into two bytes that decode to it |
| Layout.U32Bytes | include/linux/fs.h:88-96 | a 32-bit field encodes into four bytes that decode to it |
| Layout.ZoneBytes | include/linux/fs.h:95 | the nine zone pointers encode so that each reads back at offset `2k` |
| Layout.ZonesAt | include/linux/fs.h:95 | reading `n` zone pointers gives the 16-bit value at each offset |
| Layout.EncodeDInode | include/linux/fs.h:88-96 | a `d_inode` record is 32 bytes |
| Layout.DecodeDInode | include/linux/fs.h:88-96 | decoding yields a record with nine zone pointers |
| Layout.DInodeRoundTrip | include/linux/fs.h:88-96 | decoding an encoded inode record gives it back |
| Layout.EncodeDirEntry | include/linux/fs.h:164-167 | a `dir_entry` is 16 bytes |
| Layout.DecodeDirEntry | include/linux/fs.h:164-167 | decoding yields a 14-byte name |
| Layout.DirEntryRoundTrip | include/linux/fs.h:164-167 | decoding an encoded directory entry gives it back |
| Layout.EncodeDSuper | include/linux/fs.h:153-162 | a `d_super_block` is 18 bytes |
| Layout.DSuperRoundTrip | include/linux/fs.h:153-162 | decoding an encoded superblock record gives it back |
| Layout.Splice | include/linux/fs.h:88-96 | an in-place store of a record changes exactly its bytes |
| Layout.SetIndexEntry | include/linux/fs.h:95 | storing an index-block entry changes that entry and no other |
| Layout.Zeros | fs/bitmap.c:14-22 | `clear_block` leaves every byte 0 |
| Layout.AccMode | fs/namei.c:22 | `flags & O_ACCMODE` is one of 0..3 |
| Layout.U16AtSlice | include/linux/fs.h:88-99 | a 16-bit field read inside a block reads the same from its own two bytes |
| Layout.U32AtSlice | include/linux/fs.h:88-99 | a 32-bit field read inside a block reads the same from its own four bytes |
| Layout.Chunk | fs/file_dev.c:34-35 | one step of the byte-range loops moves between 1 and `left` bytes, stays inside one block, and either finishes the transfer or ends on a block boundary |
| Layout.InBlock | fs/file_dev.c:34-42 | the bytes of one chunk share the block of its first byte, at consecutive offsets |
| Bits.SetBBits | fs/bitmap.c:24-37 | setting bit `i` of a number sets it and keeps every other bit |
| Bits.ClrBBits | fs/bitmap.c:39-52 | clearing bit `i` clears it and keeps every other bit |
| Bits.FullByte | fs/bitmap.c:54-77 | a byte is 255 iff all eight bits are set |
| Bits.SetBit | fs/bitmap.c:24-37 | `set_bit` returns the old bit; afterwards that bit is set and no other bit changed |
| Bits.ClearBit | fs/bitmap.c:39-52 | `clear_bit` returns true iff the bit was already clear; afterwards that bit is clear and no other bit changed |
| Bits.SetThenClear | fs/bitmap.c:24-52 | setting a clear bit and clearing it again restores the block and reports it was set |
| Bits.FindFirstZero | fs/bitmap.c:54-77 | the result is the lowest clear bit of the 8192-bit block, or 8192 when all bits are set |
| Bits.Pow2 | include/linux/fs.h:50 | a power of two is at least 1 |
| Bits.SetBByte | fs/bitmap.c:24-52 | setting a bit below 8 keeps a byte a byte |
| Bits.SetBBoundK | fs/bitmap.c:24-37 | setting a bit below `k` keeps a number below `2^k` |
| Bits.Pow2Le | include/linux/fs.h:50 | powers of two grow with the exponent |
| Bits.AllOnes | fs/bitmap.c:54-77 | a number with its `k` low bits set and nothing above is `2^k - 1` |
| Bits.OnesBits | fs/bitmap.c:54-77 | every bit below `k` of `2^k - 1` is set |
| Bits.ClrSetB | fs/bitmap.c:24-52 | `clear_bit` undoes `set_bit` on a clear bit |
| Bitmap.FirstFree | fs/bitmap.c:88-98 | the scan over the bitmap blocks stops at the first clear bit in block order, or reports every block full |
| Bitmap.ClaimFirstFree | fs/bitmap.c:107-116 | with no clear bit nothing changes; otherwise the first clear bit is set and its block marked dirty |
| Bitmap.ClaimSetsOnlyThatBit | fs/bitmap.c:114-116 | after the claim only the claimed bit differs from before |
| Bitmap.ReleaseBit | fs/bitmap.c:170-178 | clearing a bit reports whether it was clear, clears it, dirties its block and keeps every other bit |
| Bitmap.ClaimThenRelease | fs/bitmap.c:114-178 | releasing a just-claimed bit gives the bitmap back |
| Bitmap.ZoneBitRoundTrip | fs/bitmap.c:118-170 | with the intended formula, a claimed bit's zone maps back to the same block and bit |
| Bitmap.BitZoneRoundTrip | fs/bitmap.c:118-170 | every zone from the first data zone on is the zone of exactly one bit |
| Bitmap.NewBlockZoneAsWritten | fs/bitmap.c:118 | as written, bit 5 of block 0 with data zones from 20 yields zone 5, not 24 |
| Bitmap.FreeBitAsWritten | fs/bitmap.c:173 | as written, the bit cleared is `n & 4096`, which is 0 or 4096 |
| Bitmap.FreeBitAsWrittenWrong | fs/bitmap.c:173 | as written, freeing bit 5 or bit 8197 clears bit 0 instead of bit 5 |
| Bitmap.InodeOfBit | fs/bitmap.c:223 | `j += i * BLCK_BITS` numbers the inode so that its block is `i` and its bit is `j` |
| Tables.SuperFrom | fs/super.c:165-182 | the result is the first slot from `k` whose device is `dev`, and it is NONE iff there is none |
| Tables.SuperOf | fs/super.c:165-182 | `get_super` is NONE for device 0 or an absent device, else the first slot holding it |
| Tables.InodeOffset | fs/inode.c:60-66 | record `(num-1)%32` lies inside the block, at a multiple of 32 |
| Tables.InodeSlotsDistinct | fs/inode.c:60-66 | two different inode numbers never share a block and an offset |
| Tables.LoadInode | fs/inode.c:66-67 | `read_inode` decodes a record with nine zone pointers |
| Tables.StoreInode | fs/inode.c:91-92 | `write_inode` keeps the block 1024 bytes long |
| Tables.StoreLoadInode | fs/inode.c:53-98 | reading back a record just written gives that record |
| Tables.StoreKeepsOthers | fs/inode.c:53-98 | writing one inode record leaves every other record of the block unchanged |
| Tables.PutInode | fs/inode.c:85-93 | the write-back dirties only the inode block and keeps its count |
| Tables.Dist | fs/inode.c:194-203 | every slot is reached by the circular scan within 1 to 32 steps |
| Tables.ScanInodes | fs/inode.c:194-214 | the scan finds the first unused clean slot after `last_inode`, else the last unused slot it saw, else NONE when every slot is in use |
| Tables.Synced | fs/inode.c:368-376 | `sync_inodes` keeps the set of cached blocks, each 1024 bytes |
| Tables.Cleaned | fs/inode.c:368-376 | an inode after `sync_inodes` differs only in `i_dirt`, which is cleared when it needed a write-back |
| Tables.SyncValues | fs/inode.c:368-376 | the loop writes back the inodes in slot order and cleans each of them |
| Tables.FileSystem.GetSuper | fs/super.c:165-182 | the scan returns `get_super`'s slot |
| Tables.FileSystem.ReadInode | fs/inode.c:53-71 | only slot `x` changes, and its disk part becomes the record stored in its inode block |
| Tables.FileSystem.WriteInode | fs/inode.c:73-98 | a clean inode or one without a device changes nothing; otherwise the record is stored, the block dirtied and `i_dirt` cleared |
| Tables.FileSystem.GetEmptyInode | fs/inode.c:189-228 | the slot returned was unused, is chosen as the scan chooses it, is zeroed with count 1, and a dirty one is written back first |
| Tables.FileSystem.GetPipeInode | fs/inode.c:230-249 | NONE exactly when no slot is free or no page was given; with no slot nothing changes, with no page the slot taken is left zeroed and unused; otherwise the pipe inode holds the page, has count 2, head and tail 0 and `i_pipe` set, and no other slot changes; whenever a slot was taken, `last_inode` and the blocks are as `get_empty_inode` leaves them for that slot (`EmptyTaken`: a clean slot becomes `last_inode`, a dirty one is written back first) |
| Tables.FileSystem.SyncInodes | fs/inode.c:368-376 | every inode is cleaned, the blocks are the in-order write-backs, and no inode needs syncing afterwards |
| Tables.FileSystem.InvalidateInodes | fs/inode.c:378-389 | every slot of `dev` loses its device and its dirty bit; the others are unchanged |
| Tables.Step | fs/inode.c:198-199 | the circular scan of `get_empty_inode` stays in the inode table |
| Tables.RecordsOnlyThen | fs/inode.c:368-376 | writes of inode records in a row are writes of inode records |
| Tables.PutInodeRecordsOnly | fs/inode.c:73-98 | `write_inode` changes only the inode-table block holding the record |
| Tables.SyncedRecordsOnly | fs/inode.c:368-376 | `sync_inodes` writes nothing but inode records |
| Alloc.ClaimedZone | fs/bitmap.c:114-116 | setting a zone bit keeps the superblock record, the inode bitmap and the device |
| Alloc.ReleasedZone | fs/bitmap.c:170-178 | clearing a zone bit keeps the record, the inode bitmap and the device |
| Alloc.ClaimedInode | fs/bitmap.c:220-222 | setting an inode bit keeps the record, the zone bitmap and the device |
| Alloc.ReleasedInode | fs/bitmap.c:264-271 | clearing an inode bit keeps the record, the zone bitmap and the device |
| Alloc.ClaimAllocatesOnlyThatZone | fs/bitmap.c:114-118 | the claimed zone was free, is a data zone, and is the only zone that becomes allocated |
| Alloc.ReleaseFreesOnlyThatZone | fs/bitmap.c:170-178 | freeing a zone frees it and no other |
| Alloc.ReleaseFreesOnlyThatInode | fs/bitmap.c:264-271 | freeing an inode clears its bit and no other inode's |
| Alloc.ReleasedInodeIn | fs/bitmap.c:264-271 | freeing an inode in the mounted table keeps the device's slot and its zone bits, and clears that inode's bit and no other |
| Alloc.ClaimGains | fs/bitmap.c:107-118 | bit 0 is never handed out, and the claim allocates exactly the new zone |
| Alloc.ReleaseLoses | fs/bitmap.c:170-178 | a release frees exactly that zone |
| Alloc.SuperOfKept | fs/super.c:165-182 | updating a superblock slot in place does not change which slot `get_super` finds |
| Alloc.NewThenFreeZone | fs/bitmap.c:79-179 | `free_block` of the zone `new_block` returned gives the zone bitmap back |
| Alloc.NewThenFreeInode | fs/bitmap.c:181-274 | with the corrected mask of `free_inode`, freeing the inode `new_inode` numbered gives the inode bitmap back |
| Alloc.FreshInode | fs/bitmap.c:229-236 | a new inode has count 1, one link, is dirty, has size 0, the caller's euid and egid, and all three times `now` |
| Alloc.NewBlock | fs/bitmap.c:79-146 | a zone is returned only if it was free; it is then allocated (the zone of its bit by the corrected arithmetic) and its block is zeroed; 0 means no change outside the bitmap |
| Alloc.FreeBlock | fs/bitmap.c:148-179 | a block held by another user is refused, its bitmaps unchanged and its buffer count one higher, because the reference `get_hash_table` took (fs/buffer.c:207) is never given back; otherwise its bit (by the corrected mask) is cleared, its cached copy is no longer dirty, and every zone still held stays allocated |
| Alloc.NewInode | fs/bitmap.c:181-239 | no slot or no free bit gives NONE; otherwise the slot holds a fresh inode numbered `8192*i + j` whose bit was clear and is now set |
| Alloc.FreeInode | fs/bitmap.c:241-274 | the slot ends zeroed; on a device the inode's bit (by the corrected mask) is clear afterwards and nothing else in the bitmaps changes |
| Alloc.GrewChain | fs/bitmap.c:79-146 | one allocation only sets zone bits, and such growth composes |
| Alloc.ReleasedInodeAsWritten | fs/bitmap.c:241-274 | `free_inode` as written leaves the superblock well formed with its zone bitmap, disk record and device unchanged |
| Alloc.FreeInodeAsWrittenKeepsBit | fs/bitmap.c:268 | as written, freeing inode 5 leaves inode 5 allocated and clears bit 0 of the inode bitmap, which must stay set |
| Alloc.KeptAllocating | fs/inode.c:73-98 | writing inode records back keeps every buffer and reference, so `new_block` can still run |
| Alloc.ClaimKeepsAllocating | fs/bitmap.c:220-222 | claiming an inode bit leaves the zone bitmap, bit 0 of the inode bitmap and `get_super` as they were |
| Alloc.NumberSlot | fs/bitmap.c:193-238 | the slot is numbered from the first clear bit of the inode bitmap, that bit set, or emptied again when every bitmap block is full; no other slot, block or table changes and the device can still allocate |
| Cache.Badness | fs/buffer.c:225 | `BADNESS` is 0 to 3 and is 0 only for a clean, unlocked buffer |
| Cache.HashFn | fs/buffer.c:85 | the hash is a chain index below 307 |
| Cache.RingInverse | fs/buffer.c:88-123 | on the free ring, `next_free[prev_free[y]] == y` and `prev_free[next_free[y]] == y` |
| Cache.UnlinkKeepsRing | fs/buffer.c:96-103 | unlinking a buffer from the free list leaves the rest a ring |
| Cache.LinkTailKeepsRing | fs/buffer.c:108-113 | linking a buffer before the list head puts it at the tail of the ring |
| Cache.ScanFreeIsVictim | fs/buffer.c:232-239 | the scan finds nothing iff every buffer is in use, and otherwise the first buffer of least badness |
| Cache.InitRing | fs/buffer.c:157-179 | the links `buffer_init` sets up form one ring in array order |
| Cache.RequeueRing | fs/buffer.c:88-123 | re-queueing keeps one ring with the buffer moved to its tail |
| Cache.RequeueKeeps | fs/buffer.c:88-123 | re-queueing keeps the ring, the hash chains and unique identities |
| Cache.SyncedDiskKeys | fs/buffer.c:62-72 | after `do_sync` the disk holds the blocks it held plus the dirty ones of the device |
| Cache.SyncedDiskOthers | fs/buffer.c:62-72 | blocks of other devices, and blocks no dirty buffer holds, keep their contents |
| Cache.SyncedDiskWrites | fs/buffer.c:62-72 | every dirty buffer of the device is what the disk now holds |
| Cache.ClaimedCounts | fs/buffer.c:257-268 | the victim had count 0 and now has count 1; no other count changes |
| Cache.ClaimedHeldFresh | fs/buffer.c:246-269 | taking a victim disturbs no block a buffer holds: the victim was unreferenced and what it writes back is its own block |
| Cache.BufferCache.Init | fs/buffer.c:152-191 | every head is free, has no device and count 0, and the heads form one ring in array order |
| Cache.BufferCache.FindBuffer | fs/buffer.c:125-136 | the result holds `(dev, block)`, and it is NONE iff no buffer holds that block |
| Cache.BufferCache.GetHashTable | fs/buffer.c:200-214 | a cached buffer gains exactly one reference; a miss changes nothing |
| Cache.BufferCache.PickVictim | fs/buffer.c:225-239 | the buffer chosen is the first buffer of least badness among the unused ones, or -1 when all are used |
| Cache.BufferCache.GetBlk | fs/buffer.c:223-270 | the result holds `(dev, block)` with one more reference; a new buffer has count 1, is clean and not up to date, sits at the tail of the free list, and no other buffer holds that block |
| Cache.BufferCache.Brelse | fs/buffer.c:272-281 | NULL changes nothing; otherwise the count drops by exactly 1 |
| Cache.BufferCache.Bread | fs/buffer.c:287-313 | the buffer returned is up to date and referenced; a failed read keeps no reference |
| Cache.BufferCache.ReadAheadAll | fs/buffer.c:329-336 | the read-ahead blocks keep no new reference |
| Cache.BufferCache.Breada | fs/buffer.c:320-343 | as `bread` for the first block: up to date and referenced, holding what the disk holds unless it was already cached up to date, and -1 only for an unreadable block or a full cache; the read-ahead blocks keep no reference |
| Cache.BufferCache.InvalidateBuffers | fs/buffer.c:74-83 | exactly the buffers of `dev` lose `b_uptodate` and `b_dirt` |
| Cache.BufferCache.DoSync | fs/buffer.c:62-72 | every dirty buffer of `dev` is written and is clean afterwards; the disk is `SyncedDisk` |
| Cache.Without | fs/buffer.c:101-102 | dropping position `p` keeps the elements before it and shifts the rest down by one |
| Cache.Unchain | fs/buffer.c:91-95 | unlinking `x` from a hash chain keeps exactly the other buffers |
| Cache.DistinctAt | fs/buffer.c:101-102 | distinct positions of the free list hold distinct buffers |
| Cache.WithoutDistinct | fs/buffer.c:101-102 | dropping a position keeps the list free of repeats and drops that buffer |
| Cache.AppendDistinct | fs/buffer.c:109-113 | appending a buffer not yet present keeps the list free of repeats |
| Cache.UnlinkFree | fs/buffer.c:101-103 | unlinking from the free list changes only the two neighbours' links, as the two stores say |
| Cache.LinkFreeTail | fs/buffer.c:109-113 | linking at the tail changes only free-list links |
| Cache.UnlinkNext | fs/buffer.c:101 | after the unlink each buffer of the remaining ring points forward to the next one, the last to the first |
| Cache.UnlinkPrev | fs/buffer.c:102 | after the unlink each buffer of the remaining ring points back to the previous one, and the ring starts at the new `free_list` |
| Cache.SameLinksKeepRing | fs/buffer.c:260-262 | a change that keeps every free-list link keeps the ring |
| Cache.ScanFree | fs/buffer.c:228-239 | the scan answers -1 or a buffer |
| Cache.VictimExtend | fs/buffer.c:233-238 | a later buffer in use or no better keeps the victim |
| Cache.VictimReplace | fs/buffer.c:235-236 | a later buffer strictly better becomes the victim |
| Cache.ScanFreeFrom | fs/buffer.c:228-239 | the scan finds no victim exactly when every buffer is in use, and otherwise the best one (the first of least `BADNESS`) |
| Cache.SameIdsKeep | fs/buffer.c:260-262 | a change that keeps every identity keeps the hash chains and the uniqueness of identities |
| Cache.Rehash | fs/buffer.c:91-122 | the hash table keeps its 307 heads |
| Cache.RehashOk | fs/buffer.c:91-122 | after the requeue every chain holds exactly the buffers that hash to it |
| Cache.RingLinksInRange | fs/buffer.c:98-99 | every free-list link of a ring through every buffer points at a buffer |
| Cache.Requeued | fs/buffer.c:263-267 | the requeue keeps the number of buffers |
| Cache.MoveCovers | fs/buffer.c:109-113 | moving a buffer to the tail keeps every buffer on the list |
| Cache.RenameUnique | fs/buffer.c:257-266 | giving a buffer an identity no other has keeps identities unique |
| Cache.RequeueValues | fs/buffer.c:263-267 | the requeued buffer takes the new identity and moves to the tail; the cache invariant holds; no other buffer changes but in its links |
| Cache.ClaimValues | fs/buffer.c:241-269 | the victim is written back if dirty, marked as holding nothing yet with one reference, and moved to `(dev, block)` at the tail of the free list, as `Claimed` states |
| Cache.BufferCache.SetHeads | fs/buffer.c:260-262 | replacing the heads by ones with the same identities and links keeps the cache valid and touches nothing else |
| Cache.BufferCache.Claim | fs/buffer.c:246-269 | the miss path once the victim is chosen, as `Claimed` states |
| Cache.BufferCache.ReadBlock | fs/buffer.c:302 | `ll_rw_block(READ)` fills the buffer from the disk and sets `b_uptodate` when the block exists, else changes nothing |
| Cache.BufferCache.KeepIfUptodate | fs/buffer.c:305-312 | an up-to-date buffer is returned; otherwise it is released and -1 returned |
| Cache.BufferCache.StartRead | fs/buffer.c:289-302 | the buffer for `(dev, block)` is held once more; one cached and up to date stays so; otherwise it is up to date exactly when the disk has the block, with its data; -1 only when the block is not cached and every buffer is in use |
| Cache.BufferCache.ReadAhead | fs/buffer.c:329-335 | a read-ahead block is read if needed and its reference dropped at once: no count changes |
| Cache.BufferCache.Store | fs/block_dev.c:33-38 | a holder of the buffer gives it new contents and its `b_dirt` and `b_uptodate` bits; no other buffer, link, chain or disk block changes |
| Bmap.PathOf | fs/inode.c:103-172 | blocks below 7 are direct, the next 512 go through the indirect block, and the rest through the double-indirect block by `>> 9` and `& 511` |
| Bmap.PathRoundTrip | fs/inode.c:103-172 | every file block has exactly one place in the zone tree |
| Bmap.BlockRoundTrip | fs/inode.c:103-172 | every place in the zone tree belongs to exactly one file block |
| Bmap.Entry | fs/inode.c:130-135 | an entry is 0 when its index block is 0 or cannot be read |
| Bmap.Lookup | fs/inode.c:101-183 | `bmap` gives the direct pointer for blocks below 7, and 0 when the indirect or double-indirect block on the way is 0 or not cached |
| Bmap.LookupReadsPath | fs/inode.c:101-183 | `bmap` reads only the index blocks on the way to the block |
| Bmap.EnsureZone | fs/inode.c:107-113 | a non-zero direct pointer is returned unchanged; a zero one gets a new zone, which stamps `i_ctime` and dirties the inode |
| Bmap.EnsureEntry | fs/inode.c:125-160 | an entry already set is returned unchanged; a zero one gets a new zone written into the index block, which becomes dirty |
| Bmap.DirectOutcome | fs/inode.c:107-113 | filling a direct pointer is `create_block` on a direct block |
| Bmap.IndexOutcome | fs/inode.c:116-137 | a pointer step and an entry step make an index step |
| Bmap.SingleOutcome | fs/inode.c:116-137 | the indirect case is `create_block` on a block behind the indirect block |
| Bmap.DoubleOutcome | fs/inode.c:139-172 | the double-indirect case is `create_block` behind the double-indirect block |
| Bmap.CreateBlock | fs/inode.c:396-399 | `create_block` never overwrites a non-zero pointer, and afterwards `bmap` of the block is the zone returned |
| Bmap.BlockOf | fs/inode.c:103-172 | every place in the zone tree names a file block below the maximum |
| Bmap.IndexBound | fs/inode.c:139-172 | a double-indirect place stays below `512 * 512` |
| Bmap.DivModUnique | fs/inode.c:145-160 | `>> 9` and `& 511` recover the two indices of a double-indirect place |
| Bmap.WriteEntry | fs/inode.c:131-134 | storing an entry in an index block changes only that entry and dirties the block; the device can still allocate |
| Bmap.EnsureIndex | fs/inode.c:116-172 | an index step fills `i_zone[n]` and then its entry when they are 0, as `IndexStep` states, and changes no other inode |
| Bmap.LastLevel | fs/inode.c:160-170 | filling an entry of the second-level block leaves the first-level entry that leads to it |
| Bmap.CreateSingle | fs/inode.c:116-137 | the indirect case of `create_block`, as `CreateOutcome` states, changing no other inode |
| Bmap.CreateDouble | fs/inode.c:139-172 | the double-indirect case of `create_block`, as `CreateOutcome` states, changing no other inode |
| Truncate.FreeIn | fs/bitmap.c:148-179 | `free_block` keeps the mounted slot and every other cached block, clears the zone bit and the freed block's dirty flag unless the block is held, and allocates nothing; a held block keeps its bit and its buffer count ends one higher (fs/buffer.c:207) |
| Truncate.RunCat | fs/truncate.c:43-59 | running two traces one after the other is running their concatenation |
| Truncate.RunKeepsInodeMaps | fs/truncate.c:43-59 | a truncation run touches only zone bitmaps |
| Truncate.IndTrace | fs/truncate.c:11-25 | `free_ind(0)` does nothing, and an unreadable index block is still freed |
| Truncate.DindTrace | fs/truncate.c:27-41 | `free_dind(0)` does nothing, and an unreadable index block is still freed |
| Truncate.RunHeld | fs/truncate.c:15-24 | holding an index block, freeing its children, releasing and freeing it is a run of those steps |
| Truncate.FreeEntries | fs/truncate.c:16-20 | the loop of `free_ind` frees each non-zero entry in order |
| Truncate.FreeEntryAt | fs/truncate.c:18-19 | one pass of the loop of `free_ind`: entry `k` goes to `free_block` when it is non-zero, and the store becomes what the trace of entries up to `k + 1` gives; the inodes and files are unchanged |
| Truncate.FreeInd | fs/truncate.c:11-25 | `free_ind` does what its trace says |
| Truncate.FreeIndirects | fs/truncate.c:32-36 | the loop of `free_dind` applies `free_ind` to each entry in order |
| Truncate.FreeIndAt | fs/truncate.c:34-35 | one pass of the loop of `free_dind`: entry `k` goes to `free_ind` when it is non-zero, and the store becomes what the trace of entries up to `k + 1` gives; the inodes and files are unchanged |
| Truncate.FreeDind | fs/truncate.c:27-41 | `free_dind` does what its trace says |
| Truncate.Emptied | fs/truncate.c:52-59 | all nine zone pointers are 0, the size is 0, `i_dirt` is set and `mtime = ctime = now` |
| Truncate.FreeDirect | fs/truncate.c:47-51 | each non-zero direct zone is passed to `free_block` once, in order |
| Truncate.FreeZones | fs/truncate.c:47-58 | the three loops of `truncate` do what the whole trace says |
| Truncate.Truncate | fs/truncate.c:43-59 | an inode that is neither a regular file nor a directory is left alone; otherwise the tables end as the trace leaves them and the inode is emptied |
| Truncate.Step | fs/truncate.c:11-59 | one event keeps the blocks' contents and where `get_super` finds the device |
| Truncate.Cat | fs/truncate.c:11-41 | a trace after nothing is that trace |
| Truncate.Run | fs/truncate.c:11-59 | a run keeps the blocks' contents and where `get_super` finds the device |
| Truncate.Perform | fs/truncate.c:11-59 | `free_block`, `bread` or `brelse` of one zone changes the store as `Step` says and nothing else |
| Truncate.IndFreesStep | fs/truncate.c:33-37 | the loop of `free_dind` at one entry runs `free_ind` of the entry (nothing for 0), keeps the blocks' contents, and leaves the rest of the loop to run |
| TruncateFacts.FreesCat | fs/truncate.c:43-59 | a concatenation frees what either part frees |
| TruncateFacts.EntryFreesExactly | fs/truncate.c:16-20 | the loop of `free_ind` frees exactly the non-zero entries |
| TruncateFacts.IndTraceExactly | fs/truncate.c:11-25 | `free_ind` frees exactly the index block and its non-zero entries |
| TruncateFacts.IndFreesExactly | fs/truncate.c:32-36 | the loop of `free_dind` frees exactly what its entries reach |
| TruncateFacts.DindTraceExactly | fs/truncate.c:27-41 | `free_dind` frees exactly the block and what its entries reach |
| TruncateFacts.DirectFreesExactly | fs/truncate.c:47-51 | the direct loop frees exactly the non-zero direct pointers |
| TruncateFacts.TruncFreesExactly | fs/truncate.c:43-59 | `truncate` frees zone `y` iff the inode reaches `y` |
| TruncateFacts.MappedReached | fs/inode.c:101-183 | every zone `bmap` maps for the file is reached, so `truncate` frees it |
| TruncateFacts.RunKeepsFree | fs/truncate.c:43-59 | no step of a run sets a zone bit that was clear |
| TruncateFacts.RunReleases | fs/truncate.c:43-59 | a zone the run frees that has no cached copy ends free |
| TruncateFacts.TruncReleasesMapped | fs/truncate.c:43-59 | after `truncate`, every mapped zone without a cached copy is free in the zone bitmap |
| Iref.FreeReachableKept | fs/inode.c:189-228 | taking a slot into use keeps every unused dirty slot writable |
| Iref.SlotFrom | fs/inode.c:315-318 | a found slot holds `(dev, nr)` |
| Iref.SlotFromFirst | fs/inode.c:315-318 | the scan is NONE iff no slot holds `(dev, nr)`, and otherwise it is the first such slot |
| Iref.MountedOn | fs/inode.c:327-333 | a found superblock is mounted on slot `x` |
| Iref.MountedOnFirst | fs/inode.c:327-333 | the scan is NONE iff no superblock is mounted on `x`, and otherwise it is the first |
| Iref.SlotFromIgnores | fs/inode.c:315-318 | the scan depends only on the devices and numbers of the slots |
| Iref.FindSlot | fs/inode.c:315-318 | the loop returns `SlotFrom` |
| Iref.FindMount | fs/inode.c:327-333 | the loop returns `MountedOn` |
| Iref.Target | fs/inode.c:319-347 | `iget` ends on `(dev, nr)` or on the root inode of a mounted device |
| Iref.Load | fs/inode.c:350-365 | a miss takes an empty slot, names it `(dev, nr)` and reads its record; with no slot nothing changes |
| Iref.Name | fs/inode.c:356-364 | the slot gets the device and number and the record read from its inode block |
| Iref.Hold | fs/inode.c:321 | the slot gains exactly one reference |
| Iref.Acquire | fs/inode.c:313-365 | a cached inode gains one reference with the blocks unchanged; a miss loads it into an empty slot |
| Iref.Iget | fs/inode.c:307-366 | the slot returned holds the target; on a hit it gains one reference, and a mount point crossed keeps the reference it gained |
| Iref.Cross | fs/inode.c:326-346 | a mount point without a superblock loses its mark; otherwise the root inode of the mounted device is acquired |
| Iref.PutPipe | fs/inode.c:257-264 | a pipe loses one holder; the last holder frees the page and leaves the slot unused, clean and not a pipe |
| Iref.Release | fs/inode.c:284-288 | the last reference to an inode without links truncates it and frees it: the slot is zeroed, its bit (by the corrected mask) is clear, the blocks are as `truncate` leaves them, and the whole store is `Released` |
| Iref.PutLast | fs/inode.c:278-303 | a shared inode loses one reference; the last reference to an unlinked inode leaves the store `Released`; a dirty inode still linked is written back to its record; every other slot is unchanged (`PutLastDid`) |
| Iref.Iput | fs/inode.c:252-304 | NULL changes nothing; every other call drops exactly one reference; a pipe's last holder returns its page; the release case leaves the superblocks as `Released` gives them (and the whole store, for an inode that is not block-special); the other cases keep the superblocks and write back only inode records (`IputDid`) |
| Iref.PutBlockSpecial | fs/inode.c:276-303 | `iput` on a block-special inode syncs every inode first when `sync_dev` must, then drops one reference; the last reference to an unlinked inode frees the slot, clears its bit in the inode map and leaves the superblocks as `Released` gives them |
| Iref.PutOnDevice | fs/inode.c:270-303 | a block-special inode first has every inode written back, then the last-reference rules apply; a release leaves the superblocks as `Released` gives them |
| Iref.PutKeepsRecordsOnly | fs/inode.c:252-304 | an `iput` that keeps the inode writes nothing but inode records |
| Iref.Released | fs/inode.c:284-288 | the store after `truncate` and `free_inode`: the inode's bit is cleared and no other inode's, the zone bits are those `truncate` leaves, and no block's data changes beyond what `truncate` writes |
| Iref.ReleasedFrees | fs/inode.c:284-288 | releasing an inode never allocates a zone, and every zone the file mapped that has no cached copy ends free |
| Desc.Tss | include/linux/sched.h:253-256 | `_TSS(n)` selects GDT entry `4 + 2n` |
| Desc.Ldt | include/linux/sched.h:253-257 | `_LDT(n)` selects GDT entry `5 + 2n` |
| Desc.StrInvertsTss | include/linux/sched.h:274-283 | `str` inverts `_TSS`, and all TSS and LDT selectors are distinct |
| Desc.PageAlignLeast | include/linux/sched.h:312 | without overflow `PAGE_ALIGN(n)` is the least multiple of 4096 not below `n` |
| Desc.CurrentTimeTicks | include/linux/sched.h:242 | the clock advances one second every 100 ticks and never goes back |
| Desc.SetBase | include/linux/sched.h:314-328 | `_set_base` writes the base so that `_get_base` reads it back, and only bytes 2-3, 4 and 7 change |
| Desc.SetLimit | include/linux/sched.h:330-345 | `_set_limit` changes only bytes 0-1 and 6 |
| Desc.SetLimitFields | include/linux/sched.h:330-345 | a limit below 2^20 reads back, byte 6 keeps its flags nibble, and the base is untouched |
| Desc.SetLimitPagesCovers | include/linux/sched.h:348 | with 4 KB granularity, the stored limit covers the requested bytes and less than a page more |
| Desc.GateFields | include/asm/system.h:43-55 | a gate holds the handler address, selector 0x0008, a zero byte 4, and the present bit, the privilege level and the type in byte 5 |
| Desc.GateKinds | include/asm/system.h:57-67 | interrupt, trap and system gates have access bytes 0x8E, 0x8F and 0xEF |
| Desc.TssLdtFields | include/asm/system.h:93-111 | limit 104, the base, the type byte and a zero byte 6 |
| Desc.SegDescFields | include/asm/system.h:69-77 | with the words in processor order, the descriptor decodes to the base, the limit and the access byte |
| Desc.SegDescAsWrittenSwapsWords | include/asm/system.h:69-77 | as written, a descriptor for base 1 reads back base 0x40 |
| Desc.SetGate | include/asm/system.h:43-55 | IDT entry `n` becomes the gate, and no other byte changes |
| Desc.SetIntrGate | include/asm/system.h:57-59 | type 14, privilege 0 |
| Desc.SetTrapGate | include/asm/system.h:61-63 | type 15, privilege 0 |
| Desc.SetSystemGate | include/asm/system.h:65-67 | type 15, privilege 3 |
| Desc.SetTssDesc | include/asm/system.h:122-124 | GDT entry `4 + 2nr` becomes a TSS descriptor of type 0x89 |
| Desc.SetLdtDesc | include/asm/system.h:126-128 | GDT entry `5 + 2nr` becomes an LDT descriptor of type 0x82 |
| Supers.GetFreeSuper | fs/super.c:72-79 | the first slot whose `s_dev` is 0, or NONE exactly when every slot is in use |
| Supers.PinRoundTrip | fs/super.c:123-138 | taking a reference on every bitmap block holds each of them, and releasing them all again gives back the cache as it was |
| Supers.PinnedKeepsData | fs/super.c:123-133 | reading the bitmap blocks changes only reference counts, never the data or the dirty bits |
| Supers.ReadMaps | fs/super.c:123-127 | the blocks read are the readable run from `first`, at most `n` long; a shorter run stops at an unreadable block |
| Supers.MarkZero | fs/super.c:144-145 | bit 0 of the first bitmap block is set and every other bit is kept |
| Supers.LoadedSane | fs/super.c:92-146 | a loaded superblock is well formed, belongs to the device, has no `s_isup` or `s_imount`, and has bit 0 of both bitmaps set |
| Supers.LoadSuper | fs/super.c:92-146 | loading succeeds exactly when the device is `Loadable` (block 1 present with the magic number and all bitmap blocks present), giving the `Loaded` record; otherwise the slot is handed back with `s_dev` 0 |
| Supers.FillFreeSlot | fs/super.c:87-92 | once a free slot holds a device no slot held, `get_super` finds that slot and every other device where it was |
| Supers.ReadSuper | fs/super.c:81-159 | device 0 gives NONE; a loaded device is returned unchanged; a new device loads exactly when block 1 and every bitmap block are readable and the magic is 0x137F; success fills the first free slot with the loaded superblock and holds the bitmap buffers; failure leaves the slot free and the cache as it was; a full table gives NONE |
| Supers.TakenSlotAsWritten | fs/super.c:90-92 | as written, the slot written into is NONE exactly when every slot is in use |
| Supers.FullTableWritesThroughNull | fs/super.c:87-92 | with eight other devices loaded, `read_super` of a ninth stores through the null pointer |
| Supers.Fill | fs/super.c:92-146 | the slot keeps the device only when block 1 has the magic number and every bitmap block is read; then it holds the loaded superblock and the bitmap buffers are held |
| Supers.ReadBitmaps | fs/super.c:117-136 | the count check passes exactly when every named bitmap block is readable, and then the two maps are their contents |
| Supers.ShortRead | fs/super.c:136-142 | when the loops read fewer blocks than named, some named bitmap block is unreadable |
| Supers.Pin | fs/super.c:123-133 | the slot receives the loaded superblock and every bitmap block gains one reference; nothing else changes |
| Supers.PutSuper | fs/super.c:184-207 | the root device, an unloaded device and a mounted superblock are left alone; otherwise the slot is freed, the bitmap blocks take the bitmaps the record held (`Flushed`), and each loses one reference |
| Supers.Unpin | fs/super.c:202-203 | every bitmap block loses one reference, and nothing else changes |
| Supers.FillKeepsOnce | fs/super.c:87-92 | filling a free slot keeps every device in at most one slot |
| Supers.PutForgets | fs/super.c:191-200 | after `put_super` `get_super` no longer finds the device, and finds every other device where it was |
| Supers.ClearFileCounts | fs/super.c:358 | every file-table count becomes 0, and nothing else changes |
| Supers.MountRoot | fs/super.c:351-410 | at boot the file counts are cleared, the root superblock fills slot 0, the root inode is loaded from disk with four references, and it becomes `s_isup`, `s_imount`, `pwd` and `root` |
| Supers.SetUpRoot | fs/super.c:382-391 | slot 0 holds the loaded root superblock linked to the root inode, which holds its disk record and four references |
| Supers.AttachRoot | fs/super.c:385-389 | the root inode is fetched with four references and linked as the superblock's `s_isup` and `s_imount` |
| Supers.ReadRootSuper | fs/super.c:382-383 | `read_super(ROOT_DEV)` on an empty table fills slot 0, and the root inode's block is then readable |
| Supers.GetRootInode | fs/super.c:385-386 | `iget` on an empty inode table loads the root inode's disk record into a slot with one reference |
| Supers.LinkRoot | fs/super.c:388-389 | the root inode gains three references and the superblock is linked to it |
| Supers.Pinned | fs/super.c:123-133 | the references the bitmap reads keep add no block and remove none |
| Supers.Unpinned | fs/super.c:202-203 | releasing the bitmap buffers adds no block and removes none |
| Supers.Flushed | fs/super.c:199-203 | the bitmap buffers hold what the record holds: no block is added or removed, no reference count changes, and only the bitmap blocks of the device can change |
| Supers.MapData | fs/super.c:123-133 | the contents of `n` bitmap blocks, one per block |
| Supers.MapDirt | fs/super.c:123-133 | the dirty bits of `n` bitmap blocks, one per block |
| Supers.SuperOfOthers | fs/super.c:165-182 | `get_super` finds every other device where it was, holding what it held |
| Supers.MarkZeroKeeps | fs/super.c:144-145 | with bit 0 already set, marking it again leaves the bitmap as it is |
| Supers.FlushedMaps | fs/super.c:199-203 | after the write-back the bitmap blocks hold the record's bitmaps |
| Supers.UnpinnedMaps | fs/super.c:202-203 | releasing the bitmap buffers leaves every block's contents |
| Supers.PutThenLoad | fs/super.c:81-207 | `read_super` after `put_super` finds the bitmaps the superblock held when it was put, the same disk record, and a device it can load again |
| Mount.LostThen | fs/inode.c:278-303 | two runs of `iput` in a row drop the sum of their references, and still leave every unused slot clean |
| Mount.LinkedCanPut | fs/inode.c:278-303 | with every dirty inode writable, `iput` on a slot `namei` gave neither halts nor truncates |
| Mount.LostCalm | fs/inode.c:278-303 | dropping references keeps every dirty inode writable, every unused slot clean, each inode cached once and no root inode marked as a mount point |
| Mount.PutLinked | fs/inode.c:252-304 | `iput` on a slot `namei` gave drops exactly one reference, keeps the superblocks, changes the cached blocks only as `PutKeeps` says (inode write-back, or `sync_inodes` for a block device), and keeps the table invariants |
| Mount.PutOneLinked | fs/inode.c:252-304 | `iput` on a linked slot drops exactly one reference, keeps the superblocks and every other slot, and changes the cached blocks only as `PutKeeps` says |
| Mount.MountDevice | fs/super.c:211-221 | a failed lookup gives -ENOENT, a file that is not block-special -EPERM; otherwise the device is the file's first zone; the reference is dropped either way |
| Mount.LoadKeepsSettled | fs/super.c:81-159 | loading a superblock keeps every dirty inode writable |
| Mount.LoadedRootReachable | fs/super.c:81-159 | after `read_super` loads a device, the block of its root inode is cached |
| Mount.MountOn | fs/super.c:223-270 | success holds exactly when the directory has one holder, is not a root inode, is a directory, its device's superblock can be read and is mounted nowhere, and the directory is no mount point; success links the superblock to the directory and to the device's root inode and marks the directory; each failure gives its own error and drops the reference; on success the blocks are those `read_super` leaves, and a failure writes back as `iput` does |
| Mount.Attach | fs/super.c:239-270 | a superblock that cannot be read or is mounted gives -EBUSY, a mount point -EPERM; otherwise the superblock and the directory are linked; the blocks are those `read_super` leaves (bitmaps pinned for a newly loaded device), then written back as `iput` does on failure |
| Mount.ReadFor | fs/super.c:239 | `read_super` keeps the inodes, finds or loads the device exactly when it can, changes only the slot it fills, and leaves the blocks as `Loading` says: the bitmap blocks of a newly loaded device gain one reference each |
| Mount.ReadThenLink | fs/super.c:239-266 | a `read_super` that found or loaded the device, followed by setting `s_isup` and `s_imount` and marking the directory, is a mount as `MountedOn` states |
| Mount.Link | fs/super.c:262-266 | the root inode of the device is fetched and linked as `s_isup`, the directory as `s_imount`, and the directory is marked as a mount point and dirty; the blocks are unchanged |
| Mount.Hook | fs/super.c:263-266 | the superblock slot gets `s_isup` and `s_imount`, the directory its mark and dirty bit, and nothing else changes, the blocks and `last_inode` included |
| Mount.Umount | fs/super.c:273-349 | a failed lookup gives -ENOENT; a file that is neither block-special nor a mounted root directory is refused with its error after one reference is dropped; the root device and a device with an inode in use give -EBUSY; otherwise the superblock is freed, its mount point unmarked, the mount point and root inode released, no inode of the device stays in use and every inode is written back; the blocks change only by inode write-back, and on success the bitmaps are written back and released (`Unmounted`) |
| Mount.Release | fs/super.c:275-322 | the checks pass exactly when the file names a mounted device or is the root directory of one; a refusal drops the named reference and gives its error; a pass drops the named reference and, for a directory, the mount point's |
| Mount.Scan | fs/super.c:332-339 | the scan reports busy exactly when some slot of the device is the root inode held twice or another inode held at all |
| Mount.Detach | fs/super.c:341-347 | the superblock slot is freed with its links cleared, the mount point is unmarked, it and the root inode each lose one reference, no inode of the device stays in use, no inode needs writing back, and the blocks are `Unmounted`: bitmaps written back and released, otherwise only inode records written |
| Mount.Unlink | fs/super.c:341-345 | the mount point is unmarked and given back, then the root inode; the superblock loses both links, each reference is dropped once (`Lost`), and afterwards no inode of the device is in use |
| Mount.LostCleaned | fs/super.c:347 | writing the inodes back after dropping references keeps the drop |
| Mount.MountFieldsKeepSettled | fs/super.c:343-345 | clearing `s_imount` or `s_isup` keeps every dirty inode writable |
| Mount.Unhook | fs/super.c:341-343 | the mount point is unmarked, loses one reference, and the slot's `s_imount` is cleared |
| Mount.DropRoot | fs/super.c:344-345 | the root inode loses one reference and the slot's `s_isup` is cleared |
| Mount.Free | fs/super.c:346-347 | the superblock slot is freed and every inode is written back, each differing from before only in its dirty bit; the blocks are `Unmounted` |
| Mount.LinkRead | fs/super.c:239-270 | after `read_super`: -EBUSY for no superblock or a mounted one, -EPERM for a directory already a mount point, each dropping the reference on the directory and changing nothing else; otherwise the superblock and the directory are linked and the directory marked and dirtied |
| Mount.UmountSlot | fs/super.c:279-296 | the slot looked at is NONE or a superblock slot |
| Mount.DotStrandsMountPoint | fs/super.c:319 | when the name was `.` on the mounted root, the mount point held once is left with no reference while its superblock still names it |
| Mount.LostThenUnmarked | fs/super.c:319-346 | drops, then the mount mark cleared and more drops, add up to the mark cleared first and all the drops |
| Mount.Finish | fs/super.c:322-348 | the root device and a device with an inode in use give -EBUSY and change nothing; otherwise the superblock is detached, the mount mark cleared and both references given back |
| Mount.ReleaseRoot | fs/super.c:319-320 | the references on the mount point and on the root directory are given back, writing only inode records |
| Mount.InTableKept | fs/super.c:344-347 | changing a superblock's mount fields keeps the inode-table blocks where they are |
| Mount.RecordsKept | fs/super.c:344-347 | what writes only inode records under the new table does so under the old |
| Mount.UnmountedKept | fs/super.c:344-347 | the release of a slot whose mount fields were cleared is the release of the slot as it was |
| Mount.FreedUnmounted | fs/super.c:346-347 | `put_super` followed by `sync_inodes` writes back and releases the bitmaps, then writes only inode records |
| Mount.RecordsThenUnmounted | fs/super.c:346-347 | inode-record writes before the release leave its bitmap blocks alone |
| Desc.SelectorsNameEntries | include/linux/sched.h:253-257 | the TSS and LDT selectors of task `nr` name the entries that `set_tss_desc` and `set_ldt_desc` write |
| Desc.SetBaseAt | include/linux/sched.h:347 | `set_base` rewrites the descriptor at `off` only |
| Desc.SetLimitAt | include/linux/sched.h:348 | `set_limit` rewrites the descriptor at `off` only, with the limit in pages |
| Desc.SetThenGetBase | include/linux/sched.h:347-367 | `get_base` after `set_base` gives the base back, and only bytes 2-3, 4 and 7 change |
| Desc.GetBase | include/linux/sched.h:350-365 | `_get_base` takes base bits 0-7 from byte 2, 8-15 from byte 3, 16-23 from byte 4 and 24-31 from byte 7 |
| Desc.Bytes32 | include/asm/system.h:69-77 | a 32-bit store is four bytes |
| Desc.WordBytes32 | include/asm/system.h:69-77 | reading back a 32-bit store gives the word stored |
| Desc.SetLimitPages | include/linux/sched.h:348 | `set_limit` rewrites an 8-byte descriptor |
| Desc.GateBytes | include/asm/system.h:43-55 | `_set_gate` writes an 8-byte descriptor |
| Desc.TssLdtBytes | include/asm/system.h:93-113 | `_set_tssldt_desc` writes an 8-byte descriptor |
| Desc.SegDescAsWritten | include/asm/system.h:69-77 | `_set_seg_desc` as written writes an 8-byte descriptor |
| Desc.SegDesc | include/asm/system.h:69-77 | the corrected `_set_seg_desc` writes an 8-byte descriptor |
| Desc.Put | include/asm/system.h:43-113 | writing `d` at `off` places it there and changes no other byte |
| Desc.Store | include/asm/system.h:43-113 | the macro's stores write `d` at `off` in the table, as `Put` says |
| Tasks.Sig | kernel/sched.c:23 | `_S(nr)` is a word with exactly one bit set |
| Tasks.QuotTruncates | kernel/sched.c:332-340 | C's `/` by a positive divisor truncates toward zero: the quotient has the sign of the dividend and leaves a remainder smaller than the divisor |
| Tasks.Long | include/linux/sched.h:96 | a 32-bit `long` holds its value modulo 2^32 in the signed range, and a value that fits is kept |
| Tasks.DivBounds | kernel/sched.c:332-340 | the quotient of a natural number times the divisor lies at most one divisor below it |
| Tasks.Kernel.Cur | include/linux/sched.h:238 | `*current` is a well-formed task record |
| Tasks.Kernel.SetCur | include/linux/sched.h:238 | storing into `*current` changes that task's record and nothing else: not the slot, the clock or `last_pid` |
| Signal.SysSsetmask | kernel/signal.c:22-28 | the old mask is returned; the new mask never blocks SIGKILL and holds every other bit of `newmask`; only the caller's record changes |
| Signal.Unkillable | kernel/signal.c:26 | the mask with the SIGKILL bit cleared and every other bit kept |
| Signal.SysSignal | kernel/signal.c:51-65 | an uncatchable signal gives -1 and changes nothing; otherwise the old handler is returned and only the action of `signum` changes, to the given handler with the one-shot flags |
| Signal.Installed | kernel/signal.c:67-87 | the installed action keeps handler, flags and restorer; its mask is cleared under SA_NOMASK and otherwise holds the user's mask plus the signal itself |
| Signal.OrKeeps | kernel/signal.c:118 | or-ing two masks keeps every bit of both |
| Signal.SysSigaction | kernel/signal.c:67-87 | an uncatchable signal gives -1, hands nothing back and changes nothing; otherwise 0, the previous action is handed back exactly when `oldaction` is given, and only the action of `signum` changes |
| Signal.FrameLayout | kernel/signal.c:103-117 | the user-stack frame is 7 longs under SA_NOMASK and 8 otherwise: restorer, signal number, saved mask when pushed, the saved `eax`, and the interrupted `eip` last |
| Signal.Deliver | kernel/signal.c:89-125 | SIG_IGN leaves the task alone; SIG_DFL ignores SIGCHLD and otherwise exits with the signal's bit; a handler is entered at its address with `esp` lowered by the frame, a one-shot action reverts to SIG_DFL and the action's mask joins the blocked set |
| Signal.DoSignal | kernel/signal.c:89-125 | the running task and the outcome are those `Deliver` gives; no other task changes |
| Signal.SignalIsOneShot | kernel/signal.c:51-65 | a handler set by `sys_signal` is entered once with a 7-long frame and no change to the blocked mask; the next delivery of that signal takes the default action |
| Signal.SigactionBlocksItself | kernel/signal.c:67-87 | without SA_NOMASK, delivering the signal blocks it and the action's mask, and the frame carries the mask to restore |
| Signal.Pending | kernel/signal.c:127-133 | the reported set is exactly the signals both pending and blocked |
| Sys.SetreuidRules | kernel/sys.c:116-140 | `setreuid` is all or nothing: -EPERM leaves the task as it was; success stores each positive id in the 16-bit field, modulo 2^16; an unprivileged caller only ever gets ids among its old real and effective uid; the superuser is never refused |
| Sys.SetregidRules | kernel/sys.c:52-71 | `setregid` is all or nothing even without a roll-back: -EPERM leaves the task as it was; success stores each positive id modulo 2^16; an unprivileged caller keeps its real gid and picks the effective gid among gid, egid and sgid; the superuser is never refused |
| Sys.SysSetreuid | kernel/sys.c:116-140 | the caller's record and the result are those `Setreuid` gives, ids cut to 16 bits; nothing else changes |
| Sys.SysSetregid | kernel/sys.c:52-71 | the caller's record and the result are those `Setregid` gives, ids cut to 16 bits; nothing else changes |
| Sys.Id | include/linux/sched.h:94-95 | an `int` stored in an `unsigned short` id keeps its value modulo 2^16, and a value that fits is kept as it is |
| Sys.Setreuid | kernel/sys.c:116-140 | `sys_setreuid` changes only the real and effective uid and answers 0 or -EPERM |
| Sys.Setregid | kernel/sys.c:52-71 | `sys_setregid` changes only the real and effective gid and answers 0 or -EPERM |
| Sys.SetreuidKeepsLowBits | kernel/sys.c:124 | the superuser's `setreuid(70000, -1)` leaves the real uid 4464, the low 16 bits |
| Sys.SysStime | kernel/sys.c:147-153 | a non-superuser gets -EPERM and the clock stays; the superuser gets 0 and `CURRENT_TIME` then reads the given time; no task changes |
| Sys.U32 | kernel/sys.c:162 | an `unsigned long` lies in [0, 2^32) and is the value itself when it fits |
| Sys.Brk | kernel/sys.c:162-168 | the break is the new end exactly when, compared unsigned, it lies at or past the end of code and below 16 KB under the stack start; otherwise the old break |
| Sys.BrkLowStack | kernel/sys.c:165 | with a stack start below 16 KB the limit wraps around and every end past the code is taken |
| Sys.SysBrk | kernel/sys.c:162-168 | the break becomes the one `Brk` gives and is returned; nothing else changes |
| Sys.Setpgid | kernel/sys.c:175-190 | the first task with the pid (0 meaning the caller) joins group `pgid` (0 meaning its own pid) exactly when it is not a session leader and shares the caller's session; no such task gives -ESRCH, the others -EPERM, and a refusal changes nothing |
| Sys.SysSetpgid | kernel/sys.c:175-190 | the task table and result are those `Setpgid` gives |
| Sys.Setsid | kernel/sys.c:197-207 | a session leader that is not the superuser is refused; otherwise the task leads a new session and group named by its pid, loses its terminal, and its pid is returned |
| Sys.SetsidPinsGroup | kernel/sys.c:175-207 | after a successful `setsid`, no caller's `setpgid` on that pid can move the task to another group |
| Sys.FirstSlotKept | kernel/sys.c:179-181 | a table unchanged before slot `me` and still holding the pid there finds it there first |
| Sys.SysSetsid | kernel/sys.c:197-207 | the caller's record and result are those `Setsid` gives |
| Sys.ModeBits | kernel/sys.c:225 | `mask & 0777` lies in [0, 512), agrees with `mask` modulo 512, and is `mask` itself when that is in range |
| Sys.SysUmask | kernel/sys.c:221-227 | the old mask is returned and the low nine bits of `mask` become the mask; handing back the returned value restores the old record |
| Timers.Fns | kernel/sched.c:316 | one function per entry of the list, in list order |
| Timers.Depth | kernel/sched.c:291-295 | the insertion point lies between the start position and the end of the list |
| Timers.Tick | kernel/sched.c:313 | charging the head one tick keeps the table's size |
| Timers.Expiring | kernel/sched.c:314 | the number of expiring entries lies between the start position and the end of the list |
| Timers.SumAppend | kernel/sched.c:266-270 | the delta sum of two lists joined is the sum of their sums |
| Timers.SumFrame | kernel/sched.c:266-270 | the delta sum depends only on the deltas of the listed slots |
| Timers.SumOne | kernel/sched.c:266-270 | the delta sum of a one-entry list is its delta |
| Timers.DueStep | kernel/sched.c:266-270 | each entry's due time is the previous entry's due time plus its own delta |
| Timers.DepthBounds | kernel/sched.c:291-295 | every entry before the insertion point expires earlier than `jiffies`; the entry at it does not |
| Timers.FirstFree | kernel/sched.c:280-281 | the slot found holds no function and every slot before it does; the table size when all are taken |
| Timers.DueMono | kernel/sched.c:266-270 | on an ordered list the due times start at one tick and never decrease |
| Timers.InsertKeepsOrder | kernel/sched.c:272-301 | linking a positive-delay timer in order of expiry keeps the list ordered |
| Timers.RelinkedList | kernel/sched.c:286-297 | relinking puts the new slot at its position in the list and loses no armed timer |
| Timers.RelinkedShape | kernel/sched.c:286-297 | after relinking the list is still duplicate-free, each `next` leads to the following entry, and every entry holds a function |
| Timers.RelinkedComplete | kernel/sched.c:286-297 | relinking keeps every armed slot on the list |
| Timers.InsertBefore | kernel/sched.c:291-295 | entries before the insertion point keep their due times |
| Timers.InsertAt | kernel/sched.c:291-297 | the new entry is due in exactly `jiffies` ticks |
| Timers.InsertAfter | kernel/sched.c:296-297 | entries after the insertion point keep their due times, one position later |
| Timers.InsertFacts | kernel/sched.c:272-301 | relinking the first free slot at the insertion point is an insertion in order of expiry (`Inserted`) |
| Timers.AddTimer | kernel/sched.c:272-301 | corrected `add_timer`: NULL `fn` does nothing; a non-positive delay runs `fn` at once and leaves the list; otherwise the timer goes into the first free slot at its place in order of expiry, every other timer keeps its function and due time, no armed timer is lost and order is kept |
| Timers.FindPlace | kernel/sched.c:291-295 | the walk stops at the first entry not expiring before `jiffies`, with the entry before it and the ticks left after the entries walked past |
| Timers.Link | kernel/sched.c:288-297 | the new slot is linked between the two found entries, and the head moves to it when it goes first |
| Timers.WalkStep | kernel/sched.c:291-295 | one pass of the written loop moves `p` past the entry it swaps with and charges it that entry's delta |
| Timers.EarlyList | kernel/sched.c:291-295 | after the written loop walks two or more entries, the list is the head, the new timer, and the entries from where the walk stopped: the entries walked past after the head are unlinked |
| Timers.EarlyFacts | kernel/sched.c:291-297 | in that case the new timer and the entries kept are due earlier by the delay of the entries that were dropped |
| Timers.EarlyAfter | kernel/sched.c:291-297 | each entry kept after the stop point is due earlier by the dropped entries' delay |
| Timers.AddTimerAsWritten | kernel/sched.c:272-301 | `add_timer` as written leaves the outcome `AddedAsWritten` describes: correct insertion when the walk stops within one step of the head, lost entries when it walks further, an unlinked timer when the list is empty and the word at address 0 is below `jiffies` |
| Timers.ArmAsWritten | kernel/sched.c:279-297 | the list part of the written `add_timer` keeps the list well formed and ends as `AddedAsWritten` says |
| Timers.ArmTable | kernel/sched.c:279-297 | the table and head the written code leaves form a list and match `AddedAsWritten` |
| Timers.Walk | kernel/sched.c:290-295 | the written loop stops at the insertion point, on an entry not earlier than the new timer's remaining delta |
| Timers.AsWrittenOutcome | kernel/sched.c:289-297 | the state the written walk leaves, after the final subtraction, is a list matching `AddedAsWritten` |
| Timers.NearOutcome | kernel/sched.c:289-297 | a walk of at most one step gives a list matching `AddedAsWritten` |
| Timers.EarlyOutcome | kernel/sched.c:289-297 | a walk of two or more steps gives a list matching the `Early` description |
| Timers.EarlyState | kernel/sched.c:291-297 | the table after a long walk and the final subtraction, slot by slot |
| Timers.AsWrittenNear | kernel/sched.c:289-297 | when the walk stops within one step of the head the written code inserts correctly (`Inserted`); an empty list whose address-0 word is below `jiffies` stays empty |
| Timers.MislinkExample | kernel/sched.c:289-295 | timers due in 1 and 2 ticks plus a new one due in 5: the new timer fires after 4 ticks and the second timer is off the list while its slot stays taken |
| Timers.NullHeadExample | kernel/sched.c:289 | an empty list and a zero word at address 0: the new timer takes its slot and is never linked |
| Timers.Expire | kernel/sched.c:312-321 | `do_timer`'s walk: the entries whose delta runs out after one tick are taken off the head of the list, their slots freed and their functions returned in list order; every other entry stays listed and no armed timer is lost |
| Timers.Fire | kernel/sched.c:314-320 | the loop fires exactly the expiring entries, in order, and leaves the head at the first one that stays |
| Timers.FireStep | kernel/sched.c:314-320 | firing an entry frees its slot and leads on to the following entry |
| Timers.ExpireOutcome | kernel/sched.c:312-321 | the entries that did not fire form the list from the new head, and none armed is lost |
| Timers.ExpireList | kernel/sched.c:312-321 | the entries that did not fire form the list from the new head |
| Timers.NextOf | kernel/sched.c:318 | an entry's `next` is the following entry, or NULL at the end |
| Timers.ExpireComplete | kernel/sched.c:312-321 | firing loses no timer that did not fire |
| Timers.ExpireByDue | kernel/sched.c:312-321 | on an ordered list the entries that fire are exactly those due on this tick; every other entry comes one tick closer and the list stays ordered |
| Timers.DueOnTick | kernel/sched.c:313-314 | every entry whose delta runs out on this tick was due on it |
| Timers.DueLater | kernel/sched.c:313-314 | every entry past the expiring ones is due on a later tick |
| Timers.SurvivorsDue | kernel/sched.c:312-321 | every entry that stays comes one tick closer |
| Timers.SurvivorsOrdered | kernel/sched.c:312-321 | the entries that stay are still in order of expiry |
| Timers.ExpiringBounds | kernel/sched.c:314 | the entries counted as expiring have run out and the next one has not |
| Timers.ExpiredDue | kernel/sched.c:313-314 | an entry whose delta and all deltas before it run out is due on this tick |
| Timers.SurvivorDue | kernel/sched.c:312-321 | an entry that stays is due one tick sooner |
| Sched.UnblockableWakes | kernel/sched.c:118-122 | a pending SIGKILL or SIGSTOP wakes an interruptible task whatever its blocked mask says |
| Sched.WokenChanges | kernel/sched.c:113-122 | a passed alarm is cleared and makes SIGALRM pending; no pending signal is lost; only an interruptible task changes state, and only to running |
| Sched.WakeTable | kernel/sched.c:111-123 | the wake-up pass keeps which slots are used, each task's validity and its priority |
| Sched.WakeAll | kernel/sched.c:111-123 | the loop from slot 63 down to slot 1 gives the table `WakeTable` describes |
| Sched.PicksUnique | kernel/sched.c:125-137 | the selection is determined by the table: two selections agree on task and counter |
| Sched.Select | kernel/sched.c:126-136 | the loop picks a task and counter meeting `Picks`: the runnable task with the largest counter, the highest slot among ties, slot 0 when none runs |
| Sched.StalledIffZero | kernel/sched.c:137 | the best counter is 0 exactly when the table is stalled (no runnable task with a positive counter) |
| Sched.DecayTable | kernel/sched.c:139-140 | recomputing the counters keeps which slots are used, each task's validity, priority and state |
| Sched.DecayAll | kernel/sched.c:139-140 | the recomputing loop gives the table `DecayTable` describes |
| Sched.DecayUnstalls | kernel/sched.c:125-141 | with positive priorities one recomputation suffices: the next selection finds a counter of at least 1, so the `do` loop runs at most twice |
| Sched.DecayBounded | kernel/sched.c:140 | `counter/2 + priority` keeps a counter in [priority, 2·priority] once it lies in [0, 2·priority] |
| Sched.Schedule | kernel/sched.c:106-144 | after `schedule` the table is the woken table, recomputed when it was stalled; `current` is the task `Picks` selects and, unless idle, has a positive counter; positive priorities are kept |
| Sched.Choose | kernel/sched.c:125-141 | the selection on the woken table recomputes exactly when it is stalled and then picks as `Picks` says, with a positive counter unless it picks slot 0 |
| Sched.ChargedCounter | kernel/sched.c:303-330 | a tick never leaves a negative counter, uses up the slice exactly when at most one tick was left, and adds one tick to exactly one of `utime` (user mode) or `stime` |
| Sched.DoTimer | kernel/sched.c:303-330 | `do_timer` charges the running task, expires the timer list as `Timers.Expire` says and returns the fired functions in order; a task whose slice is used up in user mode is rescheduled as `Schedule` says, otherwise no task but the current changes |
| Sched.Charge | kernel/sched.c:310-325 | one tick is charged to the current task (user or system time by `cpl`), the counter drops by one and stops at 0, reaching 0 exactly when it was at most 1; no other task changes |
| Sched.SysAlarm | kernel/sched.c:332-340 | the whole seconds left on the previous alarm, from the 32-bit difference `old - jiffies` truncated toward zero (0 when none), are returned; the alarm becomes the 32-bit `long` `jiffies + HZ * seconds`, wrapping when it does not fit, or is cleared for `seconds <= 0`; nothing else changes |
| Sched.AlarmLeft | kernel/sched.c:332-340 | an alarm of `s` seconds whose tick fits in a `long`, asked again before it passes, reports between 0 and `s` seconds, within one second of the ticks left |
| Sched.AlarmWraps | kernel/sched.c:338 | an alarm whose tick passes 2^31 - 1 wraps to a negative value below `jiffies`, which the alarm test of `schedule` (kernel/sched.c:113) finds passed at once |
| Sched.SysNice | kernel/sched.c:372-377 | the priority drops by `increment` only if it stays positive; 0 is returned; nothing else changes and positive priorities are kept |
| Exit.SendMarks | kernel/exit.c:42-53 | `send_sig` succeeds exactly on a task with a signal in 1..32 when it is privileged, the euids match or the sender is the superuser; success marks exactly that signal pending, failure changes nothing, and a privileged send to a task fails only on a bad number |
| Exit.SendSig | kernel/exit.c:42-53 | the error is `SendErr` of the slot (NULL being -EINVAL) and only that slot changes, as `Send` says |
| Exit.KillTable | kernel/exit.c:69-96 | the table after `sys_kill` has the same size |
| Exit.KillAll | kernel/exit.c:69-96 | the scan from slot 63 to 1 gives the table `KillTable` describes and the result `KillResult` gives |
| Exit.SysKill | kernel/exit.c:69-96 | every targeted slot above 0 gets the signal where `send_sig` allows it, and the result is the error of the lowest failing slot; nothing else changes |
| Exit.KillResultIsAnError | kernel/exit.c:69-96 | the result is 0 exactly when no targeted slot fails, and otherwise the error of the first failing slot upward, the last one the downward scan meets |
| Exit.KillAllSeesEmptySlots | kernel/exit.c:84-88 | as written, `kill(-1, sig)` fails whenever some slot above 0 is empty, because the NULL slot reaches `send_sig` |
| Exit.KillIntendedBySuperuser | kernel/exit.c:84-88 | with empty slots skipped, the superuser's kill with a valid signal meets no error for any pid, `-1` included |
| Exit.KillIntendedAgrees | kernel/exit.c:84-88 | on a table with no empty slot, skipping empty slots gives the written result: the correction changes only the empty-slot case |
| Exit.KillBySuperuser | kernel/exit.c:74-93 | for a pid other than -1, the superuser with a valid signal meets no error and every task it targets has the signal pending |
| Exit.Release | kernel/exit.c:19-32 | `release(NULL)` changes nothing; otherwise the slot is emptied and its page handed back for `free_page`; nothing else changes before the closing `schedule()` |
| Exit.Adopting | kernel/exit.c:118-126 | the first `n` adoption steps keep the table's shape |
| Exit.Reparented | kernel/exit.c:118-126 | the whole adoption loop keeps the table's shape |
| Exit.ChldCommutes | kernel/exit.c:121-125 | a second SIGCHLD to init changes nothing, and it commutes with a change of father |
| Exit.AdoptOne | kernel/exit.c:119-126 | one adoption step keeps the table's size |
| Exit.AdoptStep | kernel/exit.c:118-126 | the loop's step takes the table from `i` adopted slots to `i + 1` |
| Exit.ReparentAll | kernel/exit.c:118-126 | the loop gives the table `Reparented` describes: the children go to init, which has SIGCHLD pending when one of them is a zombie |
| Exit.HangUpTable | kernel/exit.c:55-63 | `kill_session` keeps the table's shape |
| Exit.KillSession | kernel/exit.c:55-63 | the scan from slot 63 to 1 gives the table `HangUpTable` describes: every task of the session above slot 0 has SIGHUP pending |
| Exit.PidSlot | kernel/exit.c:101-106 | the slot found is NONE or a used slot at or above the start holding the pid |
| Exit.PidSlotFirst | kernel/exit.c:101-106 | the slot found is the first with the pid, and NONE exactly when no slot has it |
| Exit.FindPid | kernel/exit.c:101-106 | `tell_father`'s loop finds the slot `PidSlot` gives |
| Exit.Ended | kernel/exit.c:128-142 | the exiting task keeps its pid, and its record stays well formed |
| Exit.ExitEnds | kernel/exit.c:113-150 | after `do_exit` the task is a zombie with its exit code, no open descriptors, no working directory, root or executable, and its father (found by pid) has SIGCHLD pending; with no father found, its slot is empty |
| Exit.ExitAdopts | kernel/exit.c:118-126 | every other task keeps its slot, pid and state; the exiting task's children get father 1 and no other father changes |
| Exit.OpenFiles | kernel/exit.c:128-129 | the descriptors closed are open ones, at most one per descriptor slot |
| Exit.DoExit | kernel/exit.c:113-150 | the table becomes `ExitTable`; the file-table slots to close are the open descriptors in order, and the inodes to drop are the working directory, root and executable; nothing else changes before the closing `schedule()` |
| Exit.CloseAll | kernel/exit.c:128-129 | the loop lists the open descriptors' file-table slots in order |
| Exit.PidSlotSame | kernel/exit.c:101-106 | the pid search gives the same slot on tables of the same shape |
| Exit.ExitStatusDecodes | kernel/exit.c:152-155 | the status word has a zero low byte and the code's low byte as its second byte, as `waitpid` reports an exit |
| Exit.WaitScan | kernel/exit.c:162-199 | the scan's hit is the highest reportable child or NONE when there is none, and with no hit `flag` says whether a running or sleeping child was passed |
| Exit.SysWaitpid | kernel/exit.c:157-211 | one pass of `waitpid`: a stopped child is reported without change; a zombie child is reaped, its times added to the caller's, its slot emptied and its page handed back, before `fast_release`'s closing `schedule()`; only busy children give a sleep unless WNOHANG (then 0); no child gives -ECHILD |
| Exit.ClearChld | kernel/exit.c:208 | SIGCHLD is cleared and every other bit kept |
| Exit.WaitWoken | kernel/exit.c:203-209 | after sleeping SIGCHLD is cleared and the call is interrupted exactly when another signal is pending; only the caller's record changes |
| Fork.NextPid | kernel/fork.c:154 | `++last_pid` gives the next pid, and the step past the largest `long`, which wraps negative, gives 1 |
| Fork.Steps | kernel/fork.c:153-156 | the number of `++last_pid` steps from one pid to another lies on the cycle 1..MAX_PID |
| Fork.StepsNext | kernel/fork.c:154 | one more `++last_pid` is one more step, until the cycle closes |
| Fork.StepsInjective | kernel/fork.c:153-156 | distinct pids lie at distinct step counts from the start |
| Fork.PidsHeld | kernel/fork.c:155-156 | the pids held are exactly those the inner loop finds, and there are no more of them than slots |
| Fork.PidTaken | kernel/fork.c:155-156 | the inner loop answers whether some task holds the pid |
| Fork.FreshPid | kernel/fork.c:153-156 | the `repeat:` loop ends on the first pid after the old one, on the cycle, that no task holds, within 65 steps |
| Fork.SubsetCard | kernel/fork.c:155-156 | a subset has no more elements than its superset, which bounds the pids held by the slots |
| Fork.FindEmptyProcess | kernel/fork.c:146-161 | `last_pid` moves to the first free pid after its old value and no task holds it; the result is the lowest empty slot above 0, or -EAGAIN exactly when all 63 are taken; the table is unchanged |
| Fork.LowestEmpty | kernel/fork.c:158-160 | the first empty slot from 1 up, or -EAGAIN exactly when every slot from 1 is used |
| Fork.SegBasesTile | kernel/fork.c:54 | the 64 task spaces of 64 MB start on page-directory boundaries, fit in 32 bits and do not overlap |
| Fork.CopyMem | kernel/fork.c:39-66 | `copy_mem` returns 0, or -ENOMEM exactly when `copy_page_tables` ran out of pages |
| Fork.ChildInherits | kernel/fork.c:83-115 | the child keeps the parent's ids, group, session, blocked mask, actions, descriptors, directories and priority; its father is the parent, its counter the priority, and it has no signals, no alarm, `eax` 0, no leadership and is running |
| Fork.Occ | kernel/fork.c:130-137 | a count of occurrences is at most the length |
| Fork.OccThree | kernel/fork.c:135-137 | the count over three entries is the sum of the entry-by-entry matches |
| Fork.ShareFiles | kernel/fork.c:130-133 | every file gets one more reference for each descriptor of the child that names it, and nothing else changes |
| Fork.ShareInodes | kernel/fork.c:135-137 | each inode gains one reference for each of the working directory, root and executable that names it |
| Fork.ShareOne | kernel/fork.c:135-137 | a non-NULL slot gains exactly one reference and nothing else in the table changes |
| Fork.CopyProcess | kernel/fork.c:73-144 | no page or a failed `copy_mem` gives -EAGAIN, hands the page back and changes nothing; success puts the child in slot `nr`, adds the file and inode references it shares, returns its pid and keeps pids unique |
| Fork.VerifiedPagesCover | kernel/fork.c:24-37 | the pages checked come one per 4096 bytes of the widened range, from the page of the start |
| Fork.VerifyArea | kernel/fork.c:24-37 | the pages checked are those of the range widened to page boundaries and moved by the data base, in order |
| Memory.AddrWord | mm/memory.c:254 | a page-aligned address stored as a word has that frame and no flag bits |
| Memory.PageOf | mm/memory.c:146 | `0xfffff000 & e` is a non-negative page-aligned address |
| Memory.ReadOnly | mm/memory.c:215 | `e & ~2` clears R/W and keeps the present and dirty bits and the frame |
| Memory.MakeWritable | mm/memory.c:271 | `e \| 2` sets R/W and keeps the present and dirty bits and the frame |
| Memory.Or7 | mm/memory.c:254 | `e \| 7` is present and writable and keeps the dirty bit and the frame |
| Memory.DirOffset | mm/memory.c:139 | `(a >> 20) & 0xffc` is a word offset inside the 4 KB page directory |
| Memory.TableOffset | mm/memory.c:305 | `(a >> 10) & 0xffc` is a word offset inside a 4 KB page table |
| Memory.ReadWrite | mm/memory.c:150 | a store changes the word it names and no other |
| Memory.ReadZeroed | mm/memory.c:93-95 | zero-filling a frame makes its words read as zero and leaves every other word |
| Memory.LastFree | mm/memory.c:86-88 | the index found is -1 or a frame with count 0 |
| Memory.LastFreeHighest | mm/memory.c:86-88 | the index found is the highest free frame, and -1 exactly when none is free |
| Memory.Take | mm/memory.c:82-110 | `get_free_page` hands out 0 and changes no count, or a page-aligned frame in [LOW_MEM, end) whose count was 0 and is now 1, with no other count changed |
| Memory.Drop | mm/memory.c:116-125 | below LOW_MEM nothing happens; at or above HIGH_MEMORY or on a free frame it is fatal, exactly then; otherwise that count drops by one |
| Memory.TakeThenDrop | mm/memory.c:82-125 | freeing the page `get_free_page` just handed out gives back the counts |
| Memory.Inc | mm/memory.c:222 | `mem_map[i]++` wraps modulo 256 and changes only entry `i` |
| Memory.InitialMap | mm/memory.c:452-464 | every frame is USED except the `n` frames from `start_mem`, which are free |
| Memory.FirstPageAfterInit | mm/memory.c:82-110 | after `mem_init`, `get_free_page` hands out the highest frame of the free area and counts it once |
| Memory.FreeWords | mm/memory.c:147-151 | the inner loop keeps the counts well formed when no `free_page` is fatal |
| Memory.FreeDirs | mm/memory.c:140-154 | the outer loop keeps the counts well formed when no `free_page` is fatal |
| Memory.FreeDir | mm/memory.c:141-153 | one directory entry: when no `free_page` is fatal, the counts stay well formed |
| Memory.FreeDirClears | mm/memory.c:141-153 | after one pass of the outer loop the directory entry is not present, and no page-use count has grown |
| Memory.FreeDirKeeps | mm/memory.c:141-153 | one pass of the outer loop leaves every word that was not present still not present |
| Memory.UsesAbove | mm/memory.c:147-151 | a store below the words counted does not change how many of them name a frame |
| Memory.FreeWordsCounts | mm/memory.c:147-151 | when the inner loop completes, each frame's count dropped by the number of present words that named it, and every word of the table reads zero |
| Memory.ZeroKept | mm/memory.c:147-151 | a zero or not-present word stays so through the inner loop |
| Memory.ZeroKeptDirs | mm/memory.c:140-154 | a not-present word stays so through the outer loop |
| Memory.FreeDirsClears | mm/memory.c:133-158 | when `free_page_tables` completes, no directory entry it walked is present and no frame's count has grown |
| Memory.ClearTable | mm/memory.c:147-151 | the loop over the words of a table (1024 of them) gives what `FreeWords` describes |
| Memory.ClearDirs | mm/memory.c:140-154 | the loop over directory entries gives what `FreeDirs` describes |
| Memory.CopyWords | mm/memory.c:208-224 | the inner copy loop keeps the counts well formed |
| Memory.CopyWord | mm/memory.c:212-223 | one pass of the inner copy loop keeps the counts well formed |
| Memory.CopyWordEntry | mm/memory.c:212-219 | one pass copies a present source word read-only into the destination, write-protects the source and leaves an absent source word uncopied |
| Memory.CopyWordCount | mm/memory.c:217-223 | one pass adds one reference to the frame of a present source word above LOW_MEM and changes no other count |
| Memory.CopyDirs | mm/memory.c:190-225 | the outer copy loop keeps the counts well formed unless it panics |
| Memory.CopyWordsEntries | mm/memory.c:208-224 | for non-overlapping tables each present source word is copied read-only; above LOW_MEM the source becomes read-only too (copy-on-write), otherwise it is kept; absent words are not copied |
| Memory.CopyWordsOutside | mm/memory.c:208-224 | the copy touches only the words of the two tables |
| Memory.ShareStep | mm/memory.c:222 | counting one more reference and then `k` more is counting `k + 1`, modulo 256 |
| Memory.CopyWordsCounts | mm/memory.c:217-223 | each frame above LOW_MEM gains one reference per present source word naming it, modulo 256 |
| Memory.UsesOutside | mm/memory.c:216-219 | stores to the current source word and outside the remaining words do not change their count of references |
| Memory.ShareTable | mm/memory.c:208-224 | the inner copy loop gives what `CopyWords` describes |
| Memory.ShareDirs | mm/memory.c:190-225 | the outer copy loop gives what `CopyDirs` describes |
| Memory.EntryAt | mm/memory.c:304-306 | through a present directory entry, the page-table entry's address is the table's frame plus the table offset; an absent entry gives none |
| Memory.Put | mm/memory.c:238-262 | `put_page` keeps the counts well formed |
| Memory.PutPageMaps | mm/memory.c:238-262 | after `put_page` succeeds the address translates to the page, present, writable and user-accessible; a failure (no table page) changes nothing; an existing table never fails |
| Memory.Dec | mm/memory.c:281 | `mem_map[i]--` wraps modulo 256 and changes only entry `i` |
| Memory.UnWp | mm/memory.c:265-286 | `un_wp_page` keeps the counts well formed and is never fatal; a shared page is copied into a fresh page that the entry then maps |
| Memory.UnWpPageWritable | mm/memory.c:265-286 | afterwards the entry is present and writable: an unshared page at or above LOW_MEM keeps its frame and counts; otherwise a fresh page counted once replaces it and the old page (at or above LOW_MEM) loses one reference; no free page is out of memory |
| Memory.UnWpCopies | mm/memory.c:280-286 | after `un_wp_page` the page the entry maps reads word for word as the old page did, and memory outside the new page is as before |
| Memory.ReadPageCopy | mm/memory.c:285 | after `n` steps of `copy_page` the first `n` words of the target read as the source's, and every other word is as before |
| Memory.ReadCopyPage | mm/memory.c:285 | after `copy_page` the target frame reads as the source frame did, and every other word is as before |
| Memory.CopyPage | mm/memory.c:66-74 | `copy_page` between two page frames: the frame at `to` reads as the frame at `from` did, and every other word is as before |
| Memory.PageCopied | mm/memory.c:66-74 | the 1024 `movsl` steps over two page frames, stated at every address |
| Memory.WriteVerify | mm/memory.c:310-320 | `write_verify` keeps the counts well formed and is never fatal |
| Memory.WriteVerifyWritable | mm/memory.c:310-320 | after `write_verify` an address whose page was present is mapped, through the same entry, present and writable |
| Memory.ShareEntry | mm/memory.c:375-385 | a present destination entry panics, exactly then; otherwise the counts stay well formed and 1 is returned |
| Memory.TryShare | mm/memory.c:340-386 | `try_to_share` keeps the counts well formed and returns 0 or 1 |
| Memory.ShareFrom | mm/memory.c:348-385 | `try_to_share` through the two directory entries keeps the counts well formed and returns 0 or 1 |
| Memory.ShareInto | mm/memory.c:365-385 | the second half of `try_to_share` keeps the counts well formed and returns 1 |
| Memory.Mem.ShareIntoIn | mm/memory.c:365-385 | on the page tables, the second half of `try_to_share` answers `ShareInto`; running out of memory changes nothing |
| Memory.TryToShareShares | mm/memory.c:340-386 | when `try_to_share` shares, the page was present, clean and within [LOW_MEM, HIGH_MEMORY), both entries end equal and read-only naming it, and its count went up by one; when it declines nothing changed |
| Memory.ShareFromShares | mm/memory.c:348-385 | through the two directory entries: 0 changes nothing; 1 means the source page was present, clean and in [LOW_MEM, HIGH_MEMORY), both entries now hold it read-only and its count grew by one |
| Memory.ShareIntoShares | mm/memory.c:365-385 | the destination and source entries end equal to the read-only source entry, and the page gains one reference |
| Memory.ShareIntoNewTable | mm/memory.c:366-379 | sharing into a table just allocated: the source entry survives the zero-fill and is shared |
| Memory.ShareEntryShares | mm/memory.c:378-384 | both entries end equal to the read-only source entry and the page gains one reference |
| Memory.ShareEntryKeeps | mm/memory.c:378-379 | only the two entries are stored to, so a present directory entry stays |
| Memory.Mem.GetFreePage | mm/memory.c:82-110 | the counts and address are those `Take` gives, the page handed out is zero-filled, and 0 leaves memory unchanged |
| Memory.Mem.FreePage | mm/memory.c:116-125 | fatal exactly when `Drop` says; otherwise the counts become `Drop`'s; memory is unchanged |
| Memory.Mem.MemInit | mm/memory.c:452-464 | HIGH_MEMORY becomes `end_mem` and the counts `InitialMap` |
| Memory.Mem.FreePageTables | mm/memory.c:133-158 | fatal for a `from` off a 4 MB boundary or 0; otherwise the walk over `(size + 4 MB - 1) >> 22` entries gives what `FreeDirs` describes |
| Memory.Mem.CopyPageTables | mm/memory.c:177-229 | fatal off a 4 MB boundary or on a present destination entry; otherwise the copy `CopyDirs` describes, 160 words per table from address 0 and 1024 otherwise, with -1 when a table page cannot be had |
| Memory.Mem.PutPage | mm/memory.c:238-262 | memory and result are those `Put` gives |
| Memory.Mem.UnWpPage | mm/memory.c:265-286 | memory is as `UnWp` gives; out of memory changes nothing |
| Memory.Mem.WriteVerifyPage | mm/memory.c:310-320 | memory is as `WriteVerify` gives; out of memory changes nothing |
| Memory.Mem.CopyPageWords | mm/memory.c:285 | the `movsl` loop of `copy_page` leaves memory as `CopyPage` gives it |
| Memory.Mem.TryToShare | mm/memory.c:340-386 | memory and result are those `TryShare` gives; out of memory changes nothing |
| Pipes.Ring | fs/pipe.c:36-40 | the bytes of the ring from the tail have the length asked for |
| Pipes.Advance | fs/pipe.c:37-38 | advancing a position modulo the page in two steps or one lands in the same place |
| Pipes.AppendChunk | fs/pipe.c:70-74 | storing a chunk at the head, within the page and the free space, grows the size by the chunk and appends it to the bytes in the pipe |
| Pipes.TakeChunk | fs/pipe.c:36-40 | taking a chunk at the tail, within the page, shrinks the size by the chunk and removes those bytes from the front of the pipe |
| Pipes.ReadRing | fs/pipe.c:19-41 | the loop takes `min(count, size)` bytes (none for `count <= 0`), exactly the oldest ones, in chunks of `min(4096 - tail, left, size)`; the rest stay in order; the tail advances modulo 4096; the reader would sleep exactly when bytes are still wanted and a writer remains |
| Pipes.FreeBelow | fs/pipe.c:88-89 | the zero-count indices below `i` are indices below `i` whose value is 0 |
| Pipes.FreeBelowExact | fs/pipe.c:88-89 | those indices are increasing and miss none |
| Pipes.FirstTwoIncreasing | fs/pipe.c:88-89 | the first two zero indices come in order |
| Pipes.FreeBelowPrefix | fs/pipe.c:88-89 | scanning further only adds indices at the end |
| Pipes.FirstTwo | fs/pipe.c:88-101 | at most the first two zero indices; all of them when there are fewer |
| Pipes.FileCounts | fs/pipe.c:89 | one count per file-table slot |
| Pipes.FdHoles | fs/pipe.c:97 | one entry per descriptor slot |
| Pipes.ClaimFiles | fs/pipe.c:87-93 | the first two file slots with count 0 get count 1; when only one is found it is released, so the table is unchanged |
| Pipes.FileScanStep | fs/pipe.c:88-89 | one step of the file scan claims the slot exactly when its count is 0 |
| Pipes.FirstTwoFound | fs/pipe.c:88-89 | a scan that stopped at two zero indices or at the end found the first two |
| Pipes.ClaimedFiles | fs/pipe.c:87-91 | the file table after the loop: two slots claimed, or one to release, or none |
| Pipes.TwoClaimed | fs/pipe.c:89 | claiming two slots is two single-slot updates |
| Pipes.OneClaimed | fs/pipe.c:91 | releasing the one slot claimed gives the old table back |
| Pipes.ClaimFds | fs/pipe.c:95-103 | the first two empty descriptors receive the two files, in order; when only one is found it is emptied again |
| Pipes.FdScanStep | fs/pipe.c:96-101 | one step of the descriptor scan fills the slot exactly when it is empty |
| Pipes.ClaimedFds | fs/pipe.c:95-103 | the descriptors after the loop: two filled, or one to empty, or none |
| Pipes.SysPipe | fs/pipe.c:81-126 | -1 leaves the file table and descriptors as they were; 0 means two free file slots and two free descriptors were found, the descriptors are the lowest two, the read end has mode 1 and the write end mode 2, both at position 0 on one pipe inode whose slot was free and whose page is the one handed in; a shortage of slots or descriptors leaves the inode table |
| Pipes.OpenEnds | fs/pipe.c:110-121 | without a pipe inode the file table is as it was; otherwise a formerly unused slot holds the pipe inode with two references and the page, and the two file slots become the read end and the write end at position 0 |
| Pipes.OpenedEnds | fs/pipe.c:118-121 | the claimed slots, once filled in, are a read end and a write end of the pipe inode, each with one reference and its old flags |
| Pipes.Pipe.Contents | fs/pipe.c:36-40 | the bytes in the pipe number `PIPE_SIZE` |
| Pipes.Pipe.ReadPipe | fs/pipe.c:15-45 | the oldest `min(count, size)` bytes are handed out and removed, the tail advances by that many modulo 4096, the head and page are unchanged, and the reader would sleep exactly when bytes are still wanted and a writer remains (`i_count == 2`) |
| Pipes.Pipe.WritePipe | fs/pipe.c:47-79 | the first `min(count, 4095 - size)` bytes are appended and the head advances by that many; all written returns the count; a full pipe without reader raises SIGPIPE and returns the bytes written or -1; with a reader the writer would sleep |
| Pipes.Pipe.Store | fs/pipe.c:73-74 | the chunk is stored from the head and no other byte of the page changes |
| Pipes.Pipe.Push | fs/pipe.c:70-74 | one pass of the loop of `write_pipe` appends the chunk to the contents and advances the head by its length modulo 4096, leaving the tail and count |
| BlockDev.Stored | fs/block_dev.c:36-39 | copying a chunk into a block keeps the store well formed and adds at most that block |
| BlockDev.OldBytesKept | fs/block_dev.c:36-37 | bytes copied before a step of `block_write` still read back after it |
| BlockDev.DevBytesAppend | fs/block_dev.c:20-43 | the bytes of a concatenation are the bytes of both parts, the second from where the first ends |
| BlockDev.ChunkBytes | fs/block_dev.c:36-37 | the bytes of one block from a position are what the device holds there |
| BlockDev.WriteBytes | fs/block_dev.c:20-43 | the bytes one step copies read back, and so do those copied before |
| BlockDev.WriteFrame | fs/block_dev.c:24-39 | one step changes only the block it copies into, dirties it and keeps its count; a new block appears only for a whole-block chunk, with no holder |
| BlockDev.WriteKeeps | fs/block_dev.c:36-37 | one step leaves every byte outside the range written so far as it was |
| BlockDev.WriteStep | fs/block_dev.c:20-43 | one step extends what `Wrote` describes by the chunk it copies |
| BlockDev.PutChunk | fs/block_dev.c:21-42 | one pass of the loop of `block_write` extends what `Wrote` describes by the chunk, and leaves the presence of the next block as it was |
| BlockDev.WriteBlocks | fs/block_dev.c:14-46 | the transfer starts at block `pos >> 10`, offset `pos & 1023`; `pos` advances by the bytes written, at most `count`; those bytes read back, each block touched is dirty and keeps its count, nothing else changes; it stops only at a partial chunk whose block is missing; the result is the bytes written, or -EIO when none were |
| BlockDev.ReadStep | fs/block_dev.c:54-71 | appending one chunk from the block holding the next position keeps the bytes read equal to the device's |
| BlockDev.ReadBlocks | fs/block_dev.c:48-74 | the bytes read are what the device holds from `pos`, all `count` of them unless a missing block stops the loop at `pos` or on a block boundary; `pos` advances by the bytes read; the result is their number, or -EIO when none |
| BlockDev.DevBytesHas | fs/block_dev.c:58-59 | every byte read back lies in a present block |
| BlockDev.ReadAfterWrite | fs/block_dev.c:14-74 | reading back a range just written returns exactly the bytes written and their count |
| BlockDev.BlockWrite | fs/block_dev.c:14-46 | on the tables, `block_write` changes only the block store, as `Wrote` says, and returns the bytes written or -EIO when none were |
| FileDev.ReadChunk | fs/file_dev.c:24-46 | one chunk taken from the block holding the next position, zeros for a hole, extends the bytes read so that they stay the file's |
| FileDev.ReadFile | fs/file_dev.c:17-51 | 0 for `count <= 0`; otherwise the bytes handed out are the file's from `pos` (zeros for holes), all `count` of them unless an unreadable block stops the loop at `pos` or on a block boundary; `f_pos` advances by them; the result is their number, or -ERROR when none |
| FileDev.FileRead | fs/file_dev.c:17-51 | on the tables, `file_read` moves only `f_pos`, by the bytes read, and sets `i_atime` unless `count <= 0` returned at once; blocks and superblocks are unchanged |
| FileDev.Zones | fs/file_dev.c:63 | the zones of every file block touching a byte range are collected |
| FileDev.WriteChunkFrame | fs/file_dev.c:66-87 | a step of `file_write` adds no block, keeps every count, and changes only blocks of zones in the range written |
| FileDev.WriteChunkBytes | fs/file_dev.c:70-84 | a step puts its chunk in place and, with distinct zones, leaves every earlier byte in place |
| FileDev.WriteFile | fs/file_dev.c:53-93 | `w = pos - start` bytes, at most `count` and none for `count <= 0`, are written as `FileWrote` states; the loop stops early only where `create_block` gives 0 or `bread` fails, at `start` or on a block boundary; the size becomes the final position when that is past it; the result is `w`, or -1 when nothing was written |
| FileDev.Wrote | fs/file_dev.c:77-90 | after the write, `i_size` grows to the final position exactly when that lies past it, and only then are `i_ctime` set and the inode dirtied; `i_mtime` is always the current time |
| FileDev.WriteStep | fs/file_dev.c:62-88 | a full step extends `FileWrote` by its chunk, and a chunk that does not end the transfer ends on a block boundary |
| FileDev.WriteChunk | fs/file_dev.c:66-87 | one loop pass copies between 1 and `count - w` bytes and keeps `FileWrote` |
| FileDev.BlockBefore | fs/file_dev.c:70-73 | a byte before a block boundary lies in an earlier block |
| FileDev.TouchedAt | fs/file_dev.c:63 | the block of a byte of a range touches the range |
| FileDev.WriteThenRead | fs/file_dev.c:17-93 | reading back a range `file_write` wrote returns exactly those bytes and their count, once `bmap` finds the zones `create_block` gave and those are distinct |
| FileDev.WriteStart | fs/file_dev.c:59 | the write starts at `i_size` under O_APPEND and at `f_pos` otherwise |
| FileDev.FileWrite | fs/file_dev.c:53-93 | on the tables: the result is the bytes written (at most `count`) or -1; the store is as `FileWrote` states from `WriteStart`; `i_size` grows to the final position only when that is past it, and only then are `i_ctime` set and the inode dirtied; `i_mtime` is always set; `f_pos` moves to the final position unless O_APPEND |
| Dirs.ZeroBits | fs/namei.c:76 | 0 has no bit set |
| Dirs.AndBit | fs/namei.c:76 | a bit of `a & b` is set exactly when it is set in both |
| Dirs.AndLe | fs/namei.c:76 | `a & b` is at most `b` |
| Dirs.BitsEqual | fs/namei.c:76 | two naturals with the same bits are equal |
| Dirs.SmallBits | fs/namei.c:76 | a number below 8 has no bit from 3 on |
| Dirs.Bit7 | fs/namei.c:76 | the bits of 0007 are bits 0, 1 and 2 |
| Dirs.MaskBit | fs/namei.c:76 | a bit of `x & m & 0007` is set exactly when it is set in `x` and in `m` and is below 3 |
| Dirs.MaskCovered | fs/namei.c:76 | `(x & m & 0007) == m` exactly when `m` is one of 0..7 and each of its bits is set in `x` |
| Dirs.PermissionBits | fs/namei.c:64-79 | `permission` refuses a deleted inode on a device even to the superuser; otherwise it grants the superuser everything and anyone else exactly the masks in 0..7 whose bits the owner, group or other class (chosen by euid, then egid) holds |
| Dirs.StoredName | fs/namei.c:90-91 | the stored name is the longest NUL-free prefix of the 14 bytes, ended by a NUL when shorter |
| Dirs.MatchIsStoredName | fs/namei.c:88-106 | for a NUL-free name of length 1..14, `match` holds exactly when the entry is used and its stored name equals the name |
| Dirs.EntryIn | fs/namei.c:142 | every slot of a directory block reads as a well-formed 16-byte entry |
| Dirs.PutEntry | fs/namei.c:175-177 | writing an entry keeps the block 1024 bytes long |
| Dirs.PutEntryReads | fs/namei.c:175-177 | writing slot `k` gives back the entry there and leaves every other slot as it was |
| Dirs.FreeAtIff | fs/namei.c:174 | a slot is free exactly when its inode number is 0 |
| Dirs.ZoneView | fs/namei.c:259-260 | zone 0 gives no block; a readable block is the one cached for the zone |
| Dirs.DirViewOf | fs/namei.c:259-260 | the view built from `bmap` and `bread` is the directory's |
| Dirs.ReadDirBlock | fs/namei.c:259-260 | `bmap` then `bread` for a block gives what the view says, a full block when readable |
| Dirs.EntriesFit | fs/namei.c:245 | every entry below `i_size / 16` lies in a block the file can hold |
| Dirs.SameBlock | fs/namei.c:256 | the entries up to the next block boundary share one block |
| Dirs.FindFrom | fs/namei.c:255-276 | the scan's answer is NONE or an entry in range |
| Dirs.SkipFirst | fs/namei.c:259-263 | skipping an unreadable block loses no hit |
| Dirs.StepFirst | fs/namei.c:269-275 | passing an entry that does not match keeps the first hit first |
| Dirs.FindFromFirst | fs/namei.c:255-278 | the scan gives the first matching entry from `k` on, and NONE exactly when there is none |
| Dirs.SkipNoHit | fs/namei.c:259-263 | an unreadable block holds no hit |
| Dirs.FoundFirst | fs/namei.c:245-278 | `find_entry`'s answer is the first matching entry below `i_size / 16`, and NONE exactly when the first block cannot be read or no entry matches |
| Dirs.ScanEntries | fs/namei.c:249-278 | the loop returns the first matching entry, and NONE exactly when the first block cannot be read or no entry matches |
| Dirs.FindEntry | fs/namei.c:244-278 | the scan returns what `Found` gives, so the first matching entry |
| Dirs.EmptyFromAll | fs/namei.c:403-423 | the scan sees an empty tail exactly when every entry in it is vacant |
| Dirs.SkipVacant | fs/namei.c:406-410 | a block without a zone holds only vacant entries |
| Dirs.IsEmptyIff | fs/namei.c:375-426 | the directory is empty exactly when it has at least two entries, its first block reads, `.` and `..` head it with `.` naming itself, and every later entry is vacant |
| Dirs.EmptyScan | fs/namei.c:379-425 | the loop answers true exactly when the header is right and every later entry is vacant |
| Dirs.IsEmptyDir | fs/namei.c:375-426 | `is_empty_dir`, with each block lacking a zone skipped once, answers `IsEmpty` |
| Dirs.AsWrittenWithoutHoles | fs/namei.c:403-423 | without a block lacking its zone, the loop as written answers what the intended scan does |
| Dirs.AsWrittenFirstBlock | fs/namei.c:403-410 | the unused rest of the first block brings both loops to the second block |
| Dirs.HoleReleasedTwice | fs/namei.c:403-425 | a two-block directory whose second block has no zone and whose first block holds only `.` and `..` is empty, yet the loop as written releases the first buffer twice |
| Dirs.ReadAddBlock | fs/namei.c:137-153 | `bread` of `i_zone[0]` for the first block and of what `create_block` answers after gives the view's block |
| Dirs.AddFrom | fs/namei.c:145-191 | the claimed entry, if any, is in range |
| Dirs.AddFromFirst | fs/namei.c:145-191 | the claimed entry is the first unused one in a block that was read; the size never shrinks and becomes exactly its end when it lay at or past the old size |
| Dirs.Padded | fs/namei.c:176-177 | the stored name is the first `len` bytes of the name followed by NULs, 14 bytes in all |
| Dirs.PaddedMatches | fs/namei.c:175-177 | an entry written for a used inode number matches the name it was written for |
| Dirs.NameLen | fs/namei.c:127-128 | a name length over 14 is cut to 14 and a shorter one kept |
| Dirs.AddScan | fs/namei.c:141-191 | the loop claims the entry and leaves the size `AddFrom` gives |
| Dirs.AddSpecAt | fs/namei.c:118-195 | the claimed entry is unused in a cached block with a non-zero zone, the name is not empty, and the size is at least the old one and fits 32 bits |
| Dirs.Insert | fs/namei.c:118-195 | only the size, times and dirty flag of the directory change, the size never shrinks, a success sets the mtime and dirties it; no block appears; a failure leaves every block |
| Dirs.InsertReads | fs/namei.c:174-182 | the claimed entry was unused and now holds `inr` and the padded name, matching it for a used number; every other slot and block is as it was |
| Dirs.AddThenFind | fs/namei.c:118-195 | add, then find: after `add_entry_safely` stores a used inode number under a name in a directory whose blocks are all mapped, `find_entry` finds the name, at the new entry or before it |
| Dirs.AddEntry | fs/namei.c:118-195 | `add_entry_safely` claims the entry `AddSpec` finds, writes `inr` and the padded name there and dirties the block; the directory takes the new size, ctime when it grew, and mtime on success; a failure changes no block |
| Dirs.StoreEntry | fs/namei.c:169-191 | once the scan found an entry, the inode takes the size and times `AddSpec` gives, the result is `Insert`'s, and a found entry is an unused one in a present block that now holds `inr` and the padded name, dirtied |
| Dirs.AddBound | fs/namei.c:169 | the size left is the old one or the end of an entry before `I_MAX_DIR_ENTRIES` |
| Namei.Hold | fs/namei.c:307 | taking a reference raises the slot's count by one |
| Namei.Drop | fs/namei.c:312 | `iput` lowers the slot's count by one |
| Namei.HoldDrop | fs/namei.c:307-312 | `iput` undoes the reference taken |
| Namei.DropBoth | fs/namei.c:336-338 | giving back one reference on each of two stored slots leaves every other slot as it was |
| Namei.FoundIno | fs/namei.c:333 | the inode number found is NONE or a used (non-zero) one |
| Namei.FoundInoCount | fs/namei.c:245-278 | a directory's entries do not depend on its reference count |
| Namei.FoundAt | fs/namei.c:269-271 | the entry found lies in a block that was read and holds the inode number found, and there is an entry exactly when there is a number |
| Namei.MountPoint | fs/namei.c:235-240 | `..` at a device's root inode moves to a mount point only when the device is mounted, and that mount point is an inode on a device |
| Namei.Turn | fs/namei.c:217-242 | the name is cut to 14 bytes and is empty only when given empty; `..` in the caller's root is looked up as `.`; the search moves only for `..` at a device's root inode (not the caller's root) to a mount point on a device |
| Namei.Seek | fs/namei.c:208-279 | an empty name finds nothing; the entry found is NONE or used; the directory changes only in the `..` mount case |
| Namei.ReadIno | fs/namei.c:333 | the inode number read is the one the entry holds |
| Namei.TurnIn | fs/namei.c:217-242 | the `..` cases leave the search where `Turn` says, holding a reference on the directory searched in place of the one given |
| Namei.FindIn | fs/namei.c:208-279 | `find_entry` answers what `Seek` gives and holds the directory it ends on |
| Namei.CompEnd | fs/namei.c:320-321 | the component ends at the first `/` from `pos`, or at the end of the path |
| Namei.Enter | fs/namei.c:326-340 | a step lands on NONE or on an inode on a device |
| Namei.EnterIn | fs/namei.c:326-340 | the step answers `Enter`, giving back the directory's reference and holding only the slot returned |
| Namei.LookIn | fs/namei.c:326-340 | the step answers the walk's lookup and holds only the slot returned |
| Namei.Look | fs/namei.c:326-340 | the walk's lookups land on inodes on a device and agree with `Enter` |
| Namei.Next | fs/namei.c:311-340 | a pass stops on failure, or at the last component on a directory the caller may search; otherwise it steps to an inode on a device with the component ending before the path does |
| Namei.Walk | fs/namei.c:310-341 | the walk fails or ends on an inode on a device that is a directory the caller may search (execute permission); a success needs the start searchable; at the last component it returns the start exactly when that is searchable |
| Namei.GetDir | fs/namei.c:287-342 | an empty path gives nothing; otherwise the answer is NONE or a searchable directory on a device |
| Namei.ScanComp | fs/namei.c:320-321 | the inner loop counts the bytes up to the component's end |
| Namei.NextIn | fs/namei.c:311-340 | one pass answers `Next`, holding only the slot it moves to |
| Namei.WalkIn | fs/namei.c:310-341 | the loop answers `Walk` and the table ends holding only the directory returned |
| Namei.StepIn | fs/namei.c:311-340 | a pass either ends the walk with its answer or leaves a walk from the next component with the same answer |
| Namei.GetDirIn | fs/namei.c:287-342 | `get_dir_i` answers `GetDir` and the table ends holding only the directory returned |
| Namei.BaseStart | fs/namei.c:358-364 | the base name starts just past the last `/`, or at 0 without one, and holds no `/` |
| Namei.Basename | fs/namei.c:358-366 | the scan finds `BaseStart` |
| Namei.DirNameiIn | fs/namei.c:350-370 | `dir_namei` returns `get_dir_i`'s directory, holding it, and the base name that starts past the last `/` |
| Namei.Touched | fs/namei.c:479-480 | the slot's access time is set and it is dirtied |
| Namei.Resolve | fs/namei.c:439-483 | an empty path gives nothing; the answer is NONE or an inode on a device |
| Namei.NameiIn | fs/namei.c:439-483 | `namei` answers `Resolve`; the table ends holding only the slot returned, whose access time is set and which is dirtied when it was found under a base name |
| Namei.TouchKeepsRecords | fs/namei.c:477-481 | holding and touching an inode on a device keep every record well formed |
| Namei.Namei | fs/namei.c:439-483 | on the tables, `namei` changes only the inode table, as `NameiIn` says |
| DirOps.Inc | fs/namei.c:973 | `i_nlinks++` adds one below 255 (the unsigned char wraps at 256) |
| DirOps.Dec | fs/namei.c:905 | `i_nlinks--` takes one from a positive count |
| DirOps.IncDec | fs/namei.c:905 | on the unsigned char, `i_nlinks--` undoes `i_nlinks++` and the other way round |
| DirOps.ParentOf | fs/namei.c:350-370 | `dir_namei` finds no directory exactly when `get_dir_i` fails; otherwise it gives that directory, on a device, and a base name that is the bytes after the last `/`, free of `/` |
| DirOps.ParentIn | fs/namei.c:350-370 | on the table, `dir_namei` answers `ParentOf` and holds only the directory |
| DirOps.Checked | fs/namei.c:770-782 | the checks pass exactly with a directory, a base name and write permission on it; otherwise the error is -ENOENT or -EPERM |
| DirOps.SeekAt | fs/namei.c:785-792 | the entry `find_entry` found lies in a block that was read and holds the inode number given |
| DirOps.EntryKey | fs/namei.c:785 | the block holding the entry is cached under that key with the directory block's bytes |
| DirOps.Cleared | fs/namei.c:840-841 | clearing an entry keeps the store well formed and adds no block |
| DirOps.ClearedReads | fs/namei.c:840-841 | clearing a slot frees it and dirties its block, keeps its name and every other slot and block, and no name matches the slot any more |
| DirOps.HoldTwice | fs/namei.c:846-851 | giving back the references on the two slots, in either order, restores the counts |
| DirOps.HoldSet | fs/namei.c:844-851 | changing a held slot and giving both references back changes that slot alone |
| DirOps.Locate | fs/namei.c:855-877 | the start of `sys_unlink` and `sys_rmdir` leaves a well-placed outcome: an error or an entry in the directory searched |
| DirOps.LocateSpotted | fs/namei.c:873-878 | the entry located is in a block of the directory and holds the number reported |
| DirOps.LocateIn | fs/namei.c:855-877 | on the table, the start answers `Locate` and holds the directory only on an entry found |
| DirOps.Unlinked | fs/namei.c:897-907 | the inode loses a link (a count of 0 is first raised to 1, so it ends at 0), its ctime is set and it is dirtied; nothing else changes |
| DirOps.UnlinkSpec | fs/namei.c:855-911 | `sys_unlink` returns 0, -ENOENT or -EPERM, and an error changes neither the table nor the blocks |
| DirOps.UnlinkAt | fs/namei.c:878-909 | from the entry found: 0, -ENOENT or -EPERM, and an error changes nothing |
| DirOps.UnlinkEffect | fs/namei.c:855-911 | on success the entry found named a non-directory, which loses a link, is changed at `now` and dirtied and keeps the reference `iget` took; the entry matches no name; other slots and blocks are as they were; the directory's reference is given back |
| DirOps.UnlinkClean | fs/namei.c:855-911 | `sys_unlink` keeps the records sound |
| DirOps.UnlinkCleanAt | fs/namei.c:878-910 | its second half keeps the records sound |
| DirOps.Recount | fs/namei.c:873-907 | what the directory calls read of a record does not depend on its reference count |
| DirOps.UnlinkFrom | fs/namei.c:873-910 | the loop-free second half answers `UnlinkAt` |
| DirOps.UnlinkDone | fs/namei.c:902-909 | the end clears the entry, drops the link and gives back the directory's reference, the inode's left for its `iput` |
| DirOps.UnlinkIn | fs/namei.c:855-911 | `sys_unlink` answers `UnlinkSpec` |
| DirOps.EntrySlot | fs/namei.c:878-879 | the slot `iget` gives for the entry found, or NONE |
| DirOps.HoldSetKept | fs/namei.c:902-909 | giving back the directory's reference after the inode's slot is replaced keeps the reference the call took on the inode |
| DirOps.Unlink | fs/namei.c:855-911 | on the tables `sys_unlink` returns `UnlinkSpec`'s error; an error changes nothing; on success the other slots and the blocks are as `UnlinkSpec` says and the final `iput` on the inode is `Iref.PutLast`: a last reference to a file without links leaves the store `Released` |
| DirOps.Emptied | fs/namei.c:844-845 | the removed directory keeps no link and is dirtied |
| DirOps.Removed | fs/namei.c:848-850 | the parent loses a link, is changed and modified at `now` and dirtied |
| DirOps.RecountDir | fs/namei.c:829-850 | neither the changes nor `is_empty_dir` depend on the reference count |
| DirOps.RmdirSpec | fs/namei.c:764-853 | `sys_rmdir` returns 0, -ENOENT, -EPERM, -ENOTDIR or -ENOTEMPTY, and an error changes neither the table nor the blocks |
| DirOps.RmdirAt | fs/namei.c:792-851 | from the entry found: the same errors, and an error changes nothing |
| DirOps.RmdirEffect | fs/namei.c:764-853 | on success the caller is the superuser and the inode removed is an empty directory on the parent's device, held by nobody else and not the parent; it keeps no link and only the reference this call took, the parent loses one and is changed at `now`, the entry matches no name, and nothing else changes before the last `iput` |
| DirOps.RmdirAtEffect | fs/namei.c:792-852 | the same facts from where `find_entry` left the call |
| DirOps.RmdirClean | fs/namei.c:764-853 | `sys_rmdir` keeps the records sound |
| DirOps.RmdirCleanAt | fs/namei.c:792-852 | its second half keeps the records sound |
| DirOps.RmdirFrom | fs/namei.c:792-852 | the second half answers `RmdirAt` |
| DirOps.RmdirDone | fs/namei.c:840-851 | the end clears the entry, changes both inodes and gives back the parent's reference, the directory's left for its `iput` |
| DirOps.RmdirIn | fs/namei.c:764-853 | `sys_rmdir` answers `RmdirSpec` |
| DirOps.Rmdir | fs/namei.c:764-853 | on the tables `sys_rmdir` returns `RmdirSpec`'s error; an error changes nothing; on success the removed directory's slot is emptied and the store is `Released`: `truncate` frees its zones and `free_inode` its inode |
| DirOps.Named | fs/namei.c:477-481 | `namei`'s slot is held one more time; no other slot changes |
| DirOps.LikeSound | fs/namei.c:915-926 | what the walk needs of the table still holds after `namei` |
| DirOps.Linked | fs/namei.c:973-975 | the inode gains a link, is changed at `now` and dirtied; nothing else changes |
| DirOps.LinkSpec | fs/namei.c:913-979 | `sys_link` returns 0, -ENOENT, -EPERM, -EACCES, -EXDEV, -EEXIST or -ENOSPC; -ENOENT changes nothing and no error changes a block |
| DirOps.LinkTo | fs/namei.c:919-978 | after `namei`: the same errors but -ENOENT; every error but -ENOSPC only gives back `namei`'s reference; -ENOSPC changes no block |
| DirOps.LinkUnder | fs/namei.c:928-978 | from what `dir_namei` gave: the same errors and frames as `LinkTo` |
| DirOps.LinkAdd | fs/namei.c:962-978 | the end gives 0 or -ENOSPC, adds no block and, on -ENOSPC, changes no block |
| DirOps.LinkAddIn | fs/namei.c:962-978 | the end answers `LinkAdd` |
| DirOps.LinkToIn | fs/namei.c:919-978 | the part after `namei` answers `LinkTo` |
| DirOps.LinkUnderIn | fs/namei.c:928-978 | the part after `dir_namei` answers `LinkUnder` |
| DirOps.LinkIn | fs/namei.c:913-979 | `sys_link` answers `LinkSpec` |
| DirOps.EntryFor | fs/namei.c:175-177 | the entry written holds the inode number cut to 16 bits and the name (cut to 14) padded to 14 bytes |
| DirOps.LinkAddEffect | fs/namei.c:962-978 | every reference is given back; on success the inode gains a link, is changed at `now` and dirtied, and a formerly unused entry holds its number and the name |
| DirOps.InsertNew | fs/namei.c:118-195 | a successful `add_entry_safely` fills exactly one formerly unused entry with the number and the name |
| DirOps.LinkUnderEffect | fs/namei.c:928-978 | every reference is given back; on success there was a base name and the effect is `LinkAdd`'s for it |
| DirOps.LinkEffect | fs/namei.c:913-979 | every count ends as it began; on success `oldpath` named a non-directory, which gains a link and is changed at `now`, and a formerly unused entry holds its number and the base name of `newpath` |
| DirOps.LinkToEffect | fs/namei.c:919-978 | every reference is given back; on success the inode is no directory and the effect is `LinkAdd`'s for the base name |
| DirOps.LinkAddClean | fs/namei.c:962-978 | the end dirties only slots on a device |
| DirOps.LinkToClean | fs/namei.c:919-978 | the part after `namei` dirties only slots on a device |
| DirOps.LinkClean | fs/namei.c:913-979 | `sys_link` dirties only slots on a device |
| DirOps.Link | fs/namei.c:913-979 | on the tables, `sys_link` changes only the inode table and blocks, as `LinkSpec` says, and returns its error |
| Create.RoomFor | fs/namei.c:586-609 | the checks fail with -ENOENT, -EPERM or -EEXIST, or leave a directory on a device and the base name after the last `/` |
| Create.RoomUnnamed | fs/namei.c:597-609 | a name `sys_mknod` and `sys_mkdir` go on to create is one `namei` finds nothing for, in a directory the caller may write |
| Create.RoomIn | fs/namei.c:586-609 | on the table, the checks answer `RoomFor` and hold only the directory when there is room |
| Create.NewIn | fs/namei.c:611 | `new_inode` on the directory's device claims a slot as `Claimed` says, keeps the file table and every held block, and keeps the device able to allocate |
| Create.Made | fs/namei.c:619-623 | the new inode takes the mode cut to 16 bits, the device number in zone 0 for a block or character device, all three times and the dirty flag; nothing else changes |
| Create.MknodEnd | fs/namei.c:619-638 | the end of `sys_mknod` returns 0 or -ENOSPC, adds no block, and on -ENOSPC changes no block |
| Create.MknodEndIn | fs/namei.c:619-638 | the end answers `MknodEnd` |
| Create.MknodEffect | fs/namei.c:619-638 | both references are given back and no other slot changes; the new inode has the mode, the time and (for a device file) the device number; on success it keeps its link and a formerly unused entry holds its number and the name; on -ENOSPC it has no link and the blocks are untouched |
| Create.MknodClean | fs/namei.c:619-638 | the end dirties only slots on a device |
| Create.Mknod | fs/namei.c:582-639 | -EPERM for anyone but the superuser and the errors of `RoomFor` change nothing; -ENOSPC when `new_inode` gives nothing gives back the directory; otherwise the tables become `MknodEnd`'s |
| Create.MknodHeld | fs/namei.c:605-638 | holding the directory: -ENOSPC without a new inode gives the directory back; otherwise the tables become `MknodEnd`'s |
| Create.MknodIn | fs/namei.c:611-638 | from `new_inode` on: -ENOSPC without a slot, else `MknodEnd` |
| Create.Masked | fs/namei.c:738 | `mode & 0777 & ~umask` is below 0x200 |
| Create.NotBit | fs/namei.c:738 | `~u` within `n` bits has exactly the bits `u` lacks |
| Create.HighBits | fs/namei.c:738 | a number below `2^n` has no bit from `n` on |
| Create.MaskedBits | fs/namei.c:738 | a bit of the new mode's permission part is set exactly when it is below 9, set in `mode` and clear in the umask |
| Create.DotBlock | fs/namei.c:705-730 | the seeded block is 1024 bytes |
| Create.Seeded | fs/namei.c:687-736 | seeding the new block adds exactly that block to the store |
| Create.NewDir | fs/namei.c:700-740 | the new directory keeps its device, number and count |
| Create.MkdirEnd | fs/namei.c:678-762 | the end of `sys_mkdir` returns 0 or -ENOSPC |
| Create.MkdirAdd | fs/namei.c:742-762 | from `add_entry_safely` on: 0 or -ENOSPC |
| Create.MkdirEndIn | fs/namei.c:678-762 | the end answers `MkdirEnd` |
| Create.MkdirAddIn | fs/namei.c:742-762 | the part from `add_entry_safely` on answers `MkdirAdd` |
| Create.MkdirAddEffect | fs/namei.c:742-762 | both references are given back, no other slot changes; on success the parent gains a link and is changed at `now` and a formerly unused entry holds the new number and the name; on failure the new inode has no link and only its block's dirty flag changed |
| Create.MkdirAddSlots | fs/namei.c:742-762 | the slots the part leaves, as `MkdirAddEffect` states |
| Create.MkdirEffect | fs/namei.c:678-762 | both references are given back and no other slot changes; on success the new inode is a directory with two links, 32 bytes and the new zone, the parent gains a link, and a formerly unused entry holds the new number and the name; on failure the new inode has no link |
| Create.DotBlockReads | fs/namei.c:705-730 | the seeded block holds `.` naming the new inode, `..` naming the parent (both cut to 16 bits) and nothing after them |
| Create.MkdirEmpty | fs/namei.c:641-762 | a directory `sys_mkdir` creates is one `is_empty_dir` finds empty, when the numbers fit 16 bits and the parent does not use the new zone |
| Create.MkdirAddKeeps | fs/namei.c:742-753 | the new block is untouched by `add_entry_safely` when the parent does not use it |
| Create.SeededEmpty | fs/namei.c:700-736 | a 32-byte directory whose zone 0 holds the seeded block is empty for `is_empty_dir` |
| Create.MkdirClean | fs/namei.c:678-762 | the end dirties only slots on a device |
| Create.Mkdir | fs/namei.c:641-762 | -EPERM for anyone but the superuser and the errors of `RoomFor` change nothing; otherwise the tables are as `MkdirDid` states from the tables `new_inode` and `new_block` leave, the zone kept exactly when the directory was made |
| Create.MkdirHeld | fs/namei.c:670-762 | holding the directory: the slot is claimed as `Claimed` says and the tables become what `MkdirDid` states |
| Create.MkdirIn | fs/namei.c:671-762 | from `new_inode` on, as `MkdirDid` states |
| Create.MkdirBlock | fs/namei.c:678-762 | from `new_block` on the tables become `MkdirEnd`'s, and the device holds the new zone exactly when the directory was made |
| Create.MkdirSeed | fs/namei.c:687-762 | once `new_block` gave a zone: the tables become `MkdirEnd`'s; a failure after a zone was given frees exactly that zone, and nothing else changes the superblocks |
| Create.GiveBack | fs/namei.c:744 | `free_block` of the new zone frees exactly it and leaves its buffer clean |
| Create.Accounted | fs/namei.c:678-751 | after `new_block` and a possible `free_block` the device holds the zones it held before, and the new one exactly when it was kept |
| Create.MkdirNoRoomAsWritten | fs/namei.c:744-747 | as written, the -ENOSPC path of `sys_mkdir` frees `i_zone[0]` and then truncates the directory through its last `iput`, whose first `free_block` of the same zone cannot run |
| OpenNamei.OpenFlag | fs/namei.c:495 | a truncating open for reading becomes one for writing; O_CREAT, O_EXCL and O_TRUNC are kept |
| OpenNamei.LowBitSet | fs/namei.c:495 | setting O_WRONLY on an access mode of 0 gives O_WRONLY and keeps O_CREAT, O_EXCL and O_TRUNC |
| OpenNamei.LowBit4 | fs/namei.c:495 | setting bit 0 on an access mode of 0 gives O_WRONLY |
| OpenNamei.LowBit128 | fs/namei.c:495 | setting bit 0 keeps O_CREAT |
| OpenNamei.LowBit256 | fs/namei.c:495 | setting bit 0 keeps O_EXCL |
| OpenNamei.LowBit1024 | fs/namei.c:495 | setting bit 0 keeps O_TRUNC |
| OpenNamei.AccMaskGrants | fs/namei.c:568-569 | `permission(inode, ACC_MODE(flag))` grants O_RDONLY on the read bit, O_WRONLY on the write bit, O_RDWR on both, the fourth mode to the superuser only, and nothing on a deleted inode on a device |
| OpenNamei.OpenMode | fs/namei.c:497-498 | the new file's mode is regular, fits 16 bits and carries exactly the permission bits the umask lets through |
| OpenNamei.OpeningFor | fs/namei.c:500-530 | the checks refuse with -ENOENT, -EISDIR or -EACCES; a path ending in `/` gives its directory; a missing name gives the directory to create in and the base name; a found name gives a used inode number |
| OpenNamei.OpeningAt | fs/namei.c:519-530 | after `find_entry`: the inode found exactly when an entry matched; otherwise creation only with O_CREAT in a directory the caller may write (the one `find_entry` ended in), else -ENOENT or -EACCES |
| OpenNamei.OpeningResolves | fs/namei.c:490-580 | `open_namei` agrees with `namei`: the directory for a path ending in `/`, the inode found, creation only where `namei` finds nothing and O_CREAT is set, and where `namei` finds nothing a refusal or a creation |
| OpenNamei.ResolveByParent | fs/namei.c:439-483 | `namei` is `dir_namei` followed, for a non-empty base name, by one step into the entry |
| OpenNamei.OpeningIn | fs/namei.c:500-530 | on the table, the checks answer `OpeningFor` and hold only the directory returned or created in |
| OpenNamei.OpeningFrom | fs/namei.c:504-530 | once `dir_namei` answered: refusals are -ENOENT, -EISDIR or -EACCES; a path ending in `/` gives its directory; creation is in the directory found, under the last name; a found inode has a non-zero number |
| OpenNamei.OpeningFromIn | fs/namei.c:504-530 | on the table, the checks after `dir_namei` answer `OpeningFrom` and hold only the directory returned or created in |
| OpenNamei.OpeningAtIn | fs/namei.c:519-530 | the checks after `find_entry` answer `OpeningAt` and hold the directory only to create in |
| OpenNamei.Reopen | fs/namei.c:557-579 | the found case returns 0, -EEXIST, -EACCES or -EPERM; an error changes nothing; success returns the slot `iget` gives |
| OpenNamei.ReopenEffect | fs/namei.c:557-579 | an inode handed out without creating it: O_EXCL was not set, the caller holds one more reference, its access time is `now` and nothing else changed; a directory only for reading; the fourth access mode only for the superuser; never a deleted inode on a device |
| OpenNamei.Found | fs/namei.c:557-579 | on the tables, the found case does what `Reopened` says, including `truncate` under O_TRUNC |
| OpenNamei.OpenEnd | fs/namei.c:538-554 | the end of creation returns 0 or -ENOSPC, adds no block, and on -ENOSPC changes no block |
| OpenNamei.OpenEndIn | fs/namei.c:538-554 | the end answers `OpenEnd` |
| OpenNamei.OpenEffect | fs/namei.c:538-554 | the directory is given back and no other slot changes; the new inode belongs to the caller's euid and has the mode asked for; on success the caller keeps it with one link and a formerly unused entry holds its number and the name; on failure it has no link and the blocks are untouched |
| OpenNamei.OpenClean | fs/namei.c:538-554 | the end dirties only slots on a device |
| OpenNamei.MakeFile | fs/namei.c:532-554 | from `new_inode` on: the slot is claimed as `Claimed` says and the tables are as `Created` says |
| OpenNamei.MakeFileIn | fs/namei.c:538-554 | the new inode gets its owner and mode and an entry in the directory, and the tables become `OpenEnd`'s |
| OpenNamei.Open | fs/namei.c:490-580 | `open_namei` runs the checks of `OpeningFor` on `OpenFlag(flag)` and then does what `OpenDid` says; the file table is untouched |
| OpenNamei.OpenAt | fs/namei.c:504-579 | once the checks reached their outcome, the tables are as `OpenDid` says |
| OpenFiles.Seen | fs/open.c:30-44 | after `namei` and `iput` only the access time `namei` set remains; no other slot changes |
| OpenFiles.TouchedBack | fs/open.c:40-44 | `iput` after `namei` leaves only the touch, and a record stored in between |
| OpenFiles.HeldBack | fs/open.c:119-126 | `iput` after `iget` gives back the table, but for a record stored in between |
| OpenFiles.Release | fs/open.c:120-121 | `iput` of the slot `namei` returned leaves the table `Seen` gives, changing only the inode table |
| OpenFiles.PutBack | fs/open.c:124-126 | storing the changed record and then `iput` leaves `Seen` with that record |
| OpenFiles.Utimed | fs/open.c:33-43 | the access and modification times become those given (cut to 32 bits) or both `now` without a buffer, and the inode is dirtied; nothing else changes |
| OpenFiles.Utime | fs/open.c:27-47 | `sys_utime` returns -ENOENT, changing nothing, when `namei` finds nothing; otherwise 0 with the inode as `Utimed` says and every reference count as before |
| OpenFiles.SetTimes | fs/open.c:33-44 | the end of `sys_utime` leaves the inode as `Utimed` says |
| OpenFiles.AccessAsWritten | fs/open.c:53-80 | `sys_access` as written answers 0 or -EACCES |
| OpenFiles.Access | fs/open.c:53-80 | the corrected `sys_access`, taking the group's bits from where they lie, answers 0 or -EACCES |
| OpenFiles.LowBits | fs/open.c:70 | bits 0-2 of a number are those of it modulo 8 |
| OpenFiles.CoversLow | fs/open.c:70 | covering a mask depends only on the low three bits |
| OpenFiles.ClassBits | fs/open.c:60 | cutting a mode to 0777 keeps the owner's, group's and others' bits |
| OpenFiles.AccessAsPermission | fs/open.c:53-80 | the corrected `sys_access` grants a linked inode, for the real ids, exactly what `permission` grants a non-superuser with those ids, and grants uid 0 everything except execution of a file nobody may execute |
| OpenFiles.AccessCovers | fs/open.c:60-79 | the corrected `sys_access` grants exactly what the caller's class covers, and root more as above |
| OpenFiles.PermissionCovers | fs/namei.c:69-78 | without the superuser, `permission` grants a linked inode what its shifted class covers |
| OpenFiles.ClassCovers | fs/open.c:63-66 | the corrected class and the class `permission` shifts to agree on the low three bits |
| OpenFiles.GroupReadRefused | fs/open.c:65-66 | for a file only its group may read, a group member who does not own it is refused as written and granted by the corrected check |
| OpenFiles.SysAccess | fs/open.c:53-80 | `sys_access` returns -EACCES, changing nothing, when `namei` finds nothing; otherwise the as-written answer for the task's real ids, every reference count as before |
| OpenFiles.Moved | fs/open.c:92-93 | the new directory keeps the reference `namei` took and the old one loses one; a move to the same slot keeps its count; no other slot changes |
| OpenFiles.ChangeDir | fs/open.c:87-95 | the move succeeds exactly for a directory, else -ENOTDIR with the reference given back |
| OpenFiles.Chdir | fs/open.c:82-96 | `sys_chdir` returns -ENOENT (nothing changed), -ENOTDIR (reference given back) or 0 with the working directory moved to the inode found |
| OpenFiles.Chroot | fs/open.c:98-112 | `sys_chroot` returns -ENOENT (nothing changed), -ENOTDIR (reference given back) or 0 with the root moved to the inode found |
| OpenFiles.ChmodMode | fs/open.c:124 | the new mode keeps the file type and takes the low twelve bits of `mode` |
| OpenFiles.ChmodModeUnique | fs/open.c:124 | that mode is the only 16-bit mode with the old type and the new twelve bits |
| OpenFiles.Chmod | fs/open.c:114-128 | `sys_chmod` returns -ENOENT (nothing changed), -EACCES for a caller who neither owns the inode by euid nor is the superuser (reference given back), or 0 with the mode as `ChmodMode` says and the inode dirtied, every count as before |
| OpenFiles.Chown | fs/open.c:131-147 | `sys_chown` returns -ENOENT, -EACCES for a non-superuser, or 0 with the owner cut to 16 bits and the group to 8 bits and the inode dirtied, every count as before |
| OpenFiles.LowestFrom | fs/open.c:153-154 | the scan from `k` answers NONE or an index in range |
| OpenFiles.Lowest | fs/open.c:153-164 | the scan answers NONE or an index in range |
| OpenFiles.LowestFromFirst | fs/open.c:153-154 | the scan finds the first 0 from `k` on, and NONE exactly when there is none |
| OpenFiles.LowestFirst | fs/open.c:153-166 | the first free descriptor or file slot, and NONE exactly when there is none |
| OpenFiles.FirstZero | fs/open.c:153-164 | the loop stops at `Lowest` |
| OpenFiles.WithoutBits | fs/open.c:158 | `w & ~b` clears the bits of `b` and keeps the others |
| OpenFiles.ClearExecBits | fs/open.c:158 | clearing close-on-exec bit `fd` clears it and keeps the others |
| OpenFiles.Install | fs/open.c:181-208 | the end of `sys_open` does what `Installed` says: -EPERM for `/dev/tty` without a controlling tty, the reference given back; otherwise the file slot gets the inode's mode, the flags, count 1 and position 0, the descriptor names it, and a session leader without a tty opening a tty of major 4 takes its minor |
| OpenFiles.SysOpen | fs/open.c:149-209 | `sys_open` does what `SysOpenDid` says: -EINVAL without a free descriptor, or without a free file slot (close-on-exec bit cleared); then `open_namei` with the mode cut by the umask, whose error undoes both claims; otherwise `Installed` |
| OpenFiles.OpenedSlot | fs/open.c:173-179 | `open_namei` answers 0 or an error, and on 0 hands out a held slot |
| OpenFiles.Creat | fs/open.c:211-214 | `sys_creat` is `sys_open` with O_CREAT and O_TRUNC |
| OpenFiles.Closed | fs/open.c:216-233 | -EINVAL, nothing changed, for a descriptor out of range; -EINVAL with only the close-on-exec bit cleared for an empty one; otherwise 0, the descriptor emptied and its bit cleared, the file one reference fewer, and the inode one reference fewer exactly when that was the file's last |
| OpenFiles.Close | fs/open.c:216-233 | on the tables `sys_close` returns, leaves the task and the file table, and every inode's reference count, as `Closed` says; a close that is not a file's last changes no inode, superblock or block; the last close puts the inode with `iput`, as `IputDid` states |
| OpenFiles.CloseUndoesOpen | fs/open.c:149-233 | closing the descriptor `sys_open` just handed out frees the descriptor and the file slot again and takes away the reference `open_namei` took |

## Left out

- Supers.ReadSuper: `check_disk_change` and the superblock lock are left out.
- Supers.ReadSuper: a disk superblock that names no inode-bitmap or no zone-bitmap block makes the source store through the null pointer at fs/super.c:144-145. The model loads such a disk with an empty bitmap and sets no bit.
- Supers.ReadSuper: the source has room for 8 bitmap blocks of each kind and does not check the counts on disk. The model keeps as many blocks as the disk names.
- Supers.MountRoot: the boot state (an empty superblock table, an empty inode table, a readable root device) is a precondition. A failure there is a `panic` in the source. The free-count printing under DEBUG and the floppy prompt are left out.
- Locks, sleeps and wake-ups (`wait_on_buffer`, `lock_inode`, `lock_super`, `sleep_on`): every operation runs as one step with every lock free. Where the source would sleep for a free slot or buffer, the model returns NONE.
- Device I/O (`ll_rw_block`): a READ of a block present in the disk map fills the buffer, and a WRITE stores it, before the call returns.
- `panic`: each fatal check is a precondition of the operation. The model proves that its own calls meet it.
- The file-system layers above the buffer cache read and write blocks through `FileSystem.blocks`, a map from (device, block) to cached blocks. `Cache` models the cache by itself and does not feed those layers.
- `Iref.Iput`: `sync_dev` for a block-special inode is modelled only as its inode write-back (`sync_inodes`). The buffer flushes around it belong to `Cache.BufferCache.DoSync`.
- `sync_dev` is modelled as its parts, `Tables.FileSystem.SyncInodes` and `Cache.BufferCache.DoSync`, because the two layers are kept separate.
- `Truncate.Truncate`: the source clears `i_zone[k]` as each zone is freed. The model clears all nine pointers once the freeing is done. No other code runs in between, so nothing can observe the difference.
- `Truncate.Truncate` requires a device other than 0, as `free_block` does through `get_super`.
- `Alloc.FreeBlock`: a refused `free_block` (a block held by another user) leaks its zone, as in the source. The model also keeps the extra buffer reference the refusal leaves behind, as the source does; it is not a simplification.
- `Iref.Iget`: the bound on mount-point hops relies on `MountsOk`, which says that no mount point is a root inode, as `sys_mount` ensures.
- The hash-chain insertion of `insert_into_queues` writes `b_next->b_prev` even when the chain was empty (fs/buffer.c:120-122). The chains are sequences here, so that stray store through NULL is not modelled.
- `b_uptodate` after an I/O error is not modelled: every block in the disk map reads successfully.
- `Cache.BufferCache.Brelse` and the other methods do not model `b_wait` wake-ups.
- Mount.MountOn and Mount.Umount take the slot `namei` returned for the path (NONE for a failed lookup). The path walk itself belongs to `namei`, and the model requires what `namei` hands out: a slot in use, with links, that is no pipe.
- Mount.Umount requires that a mounted superblock is as `sys_mount` left it: its mount point is a marked directory in use and its `s_isup` the device's root directory in use. The `printk` for an unmarked mount point and the copy of the name it prints are left out. For a directory, it also requires two references on the directory and on the mount point, so that the `iput` calls before the scan cannot take the last one.
- Mount.MountOn: `rw_flag` is ignored, as in the source.
- Mount.Umount: the two references it requires on a mounted root directory exclude `umount` of that directory reached as `.`, where `namei` takes no reference on the mount point. What the source then does is the fs/super.c:319 row under Findings (`Mount.DotStrandsMountPoint`).
- Alloc.FreeInode: clears bit `i_num & 8191` of the inode bitmap (`Alloc.ReleasedInode`, `Layout.MaskIntended`). fs/bitmap.c:268 as written clears bit `i_num & 4096`; see the Findings row for that line and `Alloc.ReleasedInodeAsWritten`.
- Alloc.NewThenFreeInode: the round trip holds for the corrected mask of `free_inode` only; as written it fails (`Alloc.FreeInodeAsWrittenKeepsBit`).
- Iref.Release: the inode's bit is cleared through `Alloc.FreeInode`, with the corrected mask of fs/bitmap.c:268.
- Iref.Iput: when it frees an inode it does so through `Iref.Release`, with the corrected mask of fs/bitmap.c:268.
- Alloc.NewBlock: the zone handed out is `Bitmap.ZoneOfBit`, the corrected form of fs/bitmap.c:118; see the Findings row for that line.
- Alloc.FreeBlock: the bit cleared is found with the corrected mask of fs/bitmap.c:173 (`Layout.MaskIntended`); see the Findings row for that line.
- Alloc.FreeBlock: `free_block` also clears `b_uptodate` of a cached copy (fs/bitmap.c:166), so the next `bread` reads the disk again. The cached blocks of `FileSystem` have no up-to-date bit, so the model keeps the freed block's cached contents readable.
- Truncate.FreeIn: it is `Alloc.FreeBlock`, so it uses the corrected mask of fs/bitmap.c:173 and keeps the freed block's cached contents readable, as the two lines above say.
- TruncateFacts.RunReleases: proved for the corrected mask of fs/bitmap.c:173 that `Truncate.FreeIn` uses.
- TruncateFacts.TruncReleasesMapped: proved for the corrected mask of fs/bitmap.c:173 that `Truncate.FreeIn` uses.
- Supers.PutSuper: while a device is loaded its bitmaps live in the superblock record (`s_imap`, `s_zmap`), not in the cached bitmap blocks, although in the source the two are the same buffers. `put_super` writes them into those blocks (`Supers.Flushed`) before releasing them, so a later `read_super` finds them (`Supers.PutThenLoad`). A reader of a bitmap block while its device is loaded sees the contents from the time of loading, and the dirty bits `new_block` and `free_block` raise on a bitmap buffer are kept in the record.
- Cache.BufferCache.Breada: the contents and the -1 outcome of the first block are stated for devices other than 0 only. For device 0, which no buffer holds, a read-ahead may write another buffer back to the same block.
- Exit.SysKill keeps the as-written result of `sys_kill` for `pid == -1` (kernel/exit.c:84-88). The corrected result is stated by `Exit.KillIntendedBySuperuser` and `Exit.KillIntendedAgrees`, which no other member uses.
- OpenFiles.SysAccess keeps the as-written answer of fs/open.c:66 (`OpenFiles.AccessAsWritten`). The corrected answer is `OpenFiles.Access`, which no other member uses.
- Create.Mkdir: the -ERROR path of a failed `bread` of the new directory block (fs/namei.c:687-697) is not modelled: `new_block` leaves that block cached, so the read cannot fail.
- `sys_ustat` (fs/open.c:22-25) only returns -ENOSYS and is not modelled.
- OpenFiles.Install: the controlling-terminal assignment `tty_table[tty].pgrp = pgrp` (fs/open.c:183-186) and `check_disk_change` for block devices (fs/open.c:200) are left out; the terminal table is not part of this model.
- `share_page`, `do_no_page`, `do_wp_page` and `get_empty_page` of mm/memory.c are not part of this model; `try_to_share` and `un_wp_page`, which they call, are.
- Namei.Enter: only paths whose inodes are all in the inode table are modelled. The walk's `iget` is the parameter `iget`, which (`Namei.Igets`) answers NONE or a slot already holding the inode; the loading of an inode that is not cached into an empty slot (fs/inode.c:350-365, modelled by `Iref.Iget`) is not threaded through the walk, so there the model answers NONE or -ENOENT where the source reads the inode from disk.
- Namei.EnterIn: only paths whose inodes are all in the inode table are modelled. The walk's `iget` is the parameter `iget`, which (`Namei.Igets`) answers NONE or a slot already holding the inode; the loading of an inode that is not cached into an empty slot (fs/inode.c:350-365, modelled by `Iref.Iget`) is not threaded through the walk, so there the model answers NONE or -ENOENT where the source reads the inode from disk.
- Namei.LookIn: only paths whose inodes are all in the inode table are modelled. The walk's `iget` is the parameter `iget`, which (`Namei.Igets`) answers NONE or a slot already holding the inode; the loading of an inode that is not cached into an empty slot (fs/inode.c:350-365, modelled by `Iref.Iget`) is not threaded through the walk, so there the model answers NONE or -ENOENT where the source reads the inode from disk.
- Namei.Look: only paths whose inodes are all in the inode table are modelled. The walk's `iget` is the parameter `iget`, which (`Namei.Igets`) answers NONE or a slot already holding the inode; the loading of an inode that is not cached into an empty slot (fs/inode.c:350-365, modelled by `Iref.Iget`) is not threaded through the walk, so there the model answers NONE or -ENOENT where the source reads the inode from disk.
- Namei.Walk: only paths whose inodes are all in the inode table are modelled. The walk's `iget` is the parameter `iget`, which (`Namei.Igets`) answers NONE or a slot already holding the inode; the loading of an inode that is not cached into an empty slot (fs/inode.c:350-365, modelled by `Iref.Iget`) is not threaded through the walk, so there the model answers NONE or -ENOENT where the source reads the inode from disk.
- Namei.WalkIn: only paths whose inodes are all in the inode table are modelled. The walk's `iget` is the parameter `iget`, which (`Namei.Igets`) answers NONE or a slot already holding the inode; the loading of an inode that is not cached into an empty slot (fs/inode.c:350-365, modelled by `Iref.Iget`) is not threaded through the walk, so there the model answers NONE or -ENOENT where the source reads the inode from disk.
- Namei.StepIn: only paths whose inodes are all in the inode table are modelled. The walk's `iget` is the parameter `iget`, which (`Namei.Igets`) answers NONE or a slot already holding the inode; the loading of an inode that is not cached into an empty slot (fs/inode.c:350-365, modelled by `Iref.Iget`) is not threaded through the walk, so there the model answers NONE or -ENOENT where the source reads the inode from disk.
- Namei.GetDir: only paths whose inodes are all in the inode table are modelled. The walk's `iget` is the parameter `iget`, which (`Namei.Igets`) answers NONE or a slot already holding the inode; the loading of an inode that is not cached into an empty slot (fs/inode.c:350-365, modelled by `Iref.Iget`) is not threaded through the walk, so there the model answers NONE or -ENOENT where the source reads the inode from disk.
- Namei.GetDirIn: only paths whose inodes are all in the inode table are modelled. The walk's `iget` is the parameter `iget`, which (`Namei.Igets`) answers NONE or a slot already holding the inode; the loading of an inode that is not cached into an empty slot (fs/inode.c:350-365, modelled by `Iref.Iget`) is not threaded through the walk, so there the model answers NONE or -ENOENT where the source reads the inode from disk.
- Namei.DirNameiIn: only paths whose inodes are all in the inode table are modelled. The walk's `iget` is the parameter `iget`, which (`Namei.Igets`) answers NONE or a slot already holding the inode; the loading of an inode that is not cached into an empty slot (fs/inode.c:350-365, modelled by `Iref.Iget`) is not threaded through the walk, so there the model answers NONE or -ENOENT where the source reads the inode from disk.
- Namei.Resolve: only paths whose inodes are all in the inode table are modelled. The walk's `iget` is the parameter `iget`, which (`Namei.Igets`) answers NONE or a slot already holding the inode; the loading of an inode that is not cached into an empty slot (fs/inode.c:350-365, modelled by `Iref.Iget`) is not threaded through the walk, so there the model answers NONE or -ENOENT where the source reads the inode from disk.
- Namei.NameiIn: only paths whose inodes are all in the inode table are modelled. The walk's `iget` is the parameter `iget`, which (`Namei.Igets`) answers NONE or a slot already holding the inode; the loading of an inode that is not cached into an empty slot (fs/inode.c:350-365, modelled by `Iref.Iget`) is not threaded through the walk, so there the model answers NONE or -ENOENT where the source reads the inode from disk.
- Namei.Namei: only paths whose inodes are all in the inode table are modelled. The walk's `iget` is the parameter `iget`, which (`Namei.Igets`) answers NONE or a slot already holding the inode; the loading of an inode that is not cached into an empty slot (fs/inode.c:350-365, modelled by `Iref.Iget`) is not threaded through the walk, so there the model answers NONE or -ENOENT where the source reads the inode from disk.
- DirOps.ParentOf: only paths whose inodes are all in the inode table are modelled. The walk's `iget` is the parameter `iget`, which (`Namei.Igets`) answers NONE or a slot already holding the inode; the loading of an inode that is not cached into an empty slot (fs/inode.c:350-365, modelled by `Iref.Iget`) is not threaded through the walk, so there the model answers NONE or -ENOENT where the source reads the inode from disk.
- DirOps.ParentIn: only paths whose inodes are all in the inode table are modelled. The walk's `iget` is the parameter `iget`, which (`Namei.Igets`) answers NONE or a slot already holding the inode; the loading of an inode that is not cached into an empty slot (fs/inode.c:350-365, modelled by `Iref.Iget`) is not threaded through the walk, so there the model answers NONE or -ENOENT where the source reads the inode from disk.
- DirOps.Locate: only paths whose inodes are all in the inode table are modelled. The walk's `iget` is the parameter `iget`, which (`Namei.Igets`) answers NONE or a slot already holding the inode; the loading of an inode that is not cached into an empty slot (fs/inode.c:350-365, modelled by `Iref.Iget`) is not threaded through the walk, so there the model answers NONE or -ENOENT where the source reads the inode from disk.
- DirOps.LocateSpotted: only paths whose inodes are all in the inode table are modelled. The walk's `iget` is the parameter `iget`, which (`Namei.Igets`) answers NONE or a slot already holding the inode; the loading of an inode that is not cached into an empty slot (fs/inode.c:350-365, modelled by `Iref.Iget`) is not threaded through the walk, so there the model answers NONE or -ENOENT where the source reads the inode from disk.
- DirOps.LocateIn: only paths whose inodes are all in the inode table are modelled. The walk's `iget` is the parameter `iget`, which (`Namei.Igets`) answers NONE or a slot already holding the inode; the loading of an inode that is not cached into an empty slot (fs/inode.c:350-365, modelled by `Iref.Iget`) is not threaded through the walk, so there the model answers NONE or -ENOENT where the source reads the inode from disk.
- Create.RoomFor: only paths whose inodes are all in the inode table are modelled. The walk's `iget` is the parameter `iget`, which (`Namei.Igets`) answers NONE or a slot already holding the inode; the loading of an inode that is not cached into an empty slot (fs/inode.c:350-365, modelled by `Iref.Iget`) is not threaded through the walk, so there the model answers NONE or -ENOENT where the source reads the inode from disk.
- Create.RoomUnnamed: only paths whose inodes are all in the inode table are modelled. The walk's `iget` is the parameter `iget`, which (`Namei.Igets`) answers NONE or a slot already holding the inode; the loading of an inode that is not cached into an empty slot (fs/inode.c:350-365, modelled by `Iref.Iget`) is not threaded through the walk, so there the model answers NONE or -ENOENT where the source reads the inode from disk.
- Create.RoomIn: only paths whose inodes are all in the inode table are modelled. The walk's `iget` is the parameter `iget`, which (`Namei.Igets`) answers NONE or a slot already holding the inode; the loading of an inode that is not cached into an empty slot (fs/inode.c:350-365, modelled by `Iref.Iget`) is not threaded through the walk, so there the model answers NONE or -ENOENT where the source reads the inode from disk.
- OpenNamei.OpeningFor: only paths whose inodes are all in the inode table are modelled. The walk's `iget` is the parameter `iget`, which (`Namei.Igets`) answers NONE or a slot already holding the inode; the loading of an inode that is not cached into an empty slot (fs/inode.c:350-365, modelled by `Iref.Iget`) is not threaded through the walk, so there the model answers NONE or -ENOENT where the source reads the inode from disk.
- OpenNamei.OpeningFrom: only paths whose inodes are all in the inode table are modelled. The walk's `iget` is the parameter `iget`, which (`Namei.Igets`) answers NONE or a slot already holding the inode; the loading of an inode that is not cached into an empty slot (fs/inode.c:350-365, modelled by `Iref.Iget`) is not threaded through the walk, so there the model answers NONE or -ENOENT where the source reads the inode from disk.
- OpenNamei.OpeningResolves: only paths whose inodes are all in the inode table are modelled. The walk's `iget` is the parameter `iget`, which (`Namei.Igets`) answers NONE or a slot already holding the inode; the loading of an inode that is not cached into an empty slot (fs/inode.c:350-365, modelled by `Iref.Iget`) is not threaded through the walk, so there the model answers NONE or -ENOENT where the source reads the inode from disk.
- OpenNamei.ResolveByParent: only paths whose inodes are all in the inode table are modelled. The walk's `iget` is the parameter `iget`, which (`Namei.Igets`) answers NONE or a slot already holding the inode; the loading of an inode that is not cached into an empty slot (fs/inode.c:350-365, modelled by `Iref.Iget`) is not threaded through the walk, so there the model answers NONE or -ENOENT where the source reads the inode from disk.
- OpenNamei.OpeningIn: only paths whose inodes are all in the inode table are modelled. The walk's `iget` is the parameter `iget`, which (`Namei.Igets`) answers NONE or a slot already holding the inode; the loading of an inode that is not cached into an empty slot (fs/inode.c:350-365, modelled by `Iref.Iget`) is not threaded through the walk, so there the model answers NONE or -ENOENT where the source reads the inode from disk.
- OpenNamei.OpeningFromIn: only paths whose inodes are all in the inode table are modelled. The walk's `iget` is the parameter `iget`, which (`Namei.Igets`) answers NONE or a slot already holding the inode; the loading of an inode that is not cached into an empty slot (fs/inode.c:350-365, modelled by `Iref.Iget`) is not threaded through the walk, so there the model answers NONE or -ENOENT where the source reads the inode from disk.
- Namei.Drop: `iput` here is the reference-count decrement `Namei.Drop`. The last `iput`'s write-back of a dirty inode, its `truncate` and `free_inode` of an inode without links, and a pipe's `free_page` (fs/inode.c:252-304, modelled by `Iref.Iput`) are not part of this contract.
- DirOps.LinkSpec: `iput` here is the reference-count decrement `Namei.Drop`. The last `iput`'s write-back of a dirty inode, its `truncate` and `free_inode` of an inode without links, and a pipe's `free_page` (fs/inode.c:252-304, modelled by `Iref.Iput`) are not part of this contract.
- DirOps.LinkTo: `iput` here is the reference-count decrement `Namei.Drop`. The last `iput`'s write-back of a dirty inode, its `truncate` and `free_inode` of an inode without links, and a pipe's `free_page` (fs/inode.c:252-304, modelled by `Iref.Iput`) are not part of this contract.
- DirOps.LinkUnder: `iput` here is the reference-count decrement `Namei.Drop`. The last `iput`'s write-back of a dirty inode, its `truncate` and `free_inode` of an inode without links, and a pipe's `free_page` (fs/inode.c:252-304, modelled by `Iref.Iput`) are not part of this contract.
- DirOps.LinkToIn: `iput` here is the reference-count decrement `Namei.Drop`. The last `iput`'s write-back of a dirty inode, its `truncate` and `free_inode` of an inode without links, and a pipe's `free_page` (fs/inode.c:252-304, modelled by `Iref.Iput`) are not part of this contract.
- DirOps.LinkUnderIn: `iput` here is the reference-count decrement `Namei.Drop`. The last `iput`'s write-back of a dirty inode, its `truncate` and `free_inode` of an inode without links, and a pipe's `free_page` (fs/inode.c:252-304, modelled by `Iref.Iput`) are not part of this contract.
- DirOps.LinkIn: `iput` here is the reference-count decrement `Namei.Drop`. The last `iput`'s write-back of a dirty inode, its `truncate` and `free_inode` of an inode without links, and a pipe's `free_page` (fs/inode.c:252-304, modelled by `Iref.Iput`) are not part of this contract.
- DirOps.LinkUnderEffect: `iput` here is the reference-count decrement `Namei.Drop`. The last `iput`'s write-back of a dirty inode, its `truncate` and `free_inode` of an inode without links, and a pipe's `free_page` (fs/inode.c:252-304, modelled by `Iref.Iput`) are not part of this contract.
- DirOps.LinkEffect: `iput` here is the reference-count decrement `Namei.Drop`. The last `iput`'s write-back of a dirty inode, its `truncate` and `free_inode` of an inode without links, and a pipe's `free_page` (fs/inode.c:252-304, modelled by `Iref.Iput`) are not part of this contract.
- DirOps.LinkToEffect: `iput` here is the reference-count decrement `Namei.Drop`. The last `iput`'s write-back of a dirty inode, its `truncate` and `free_inode` of an inode without links, and a pipe's `free_page` (fs/inode.c:252-304, modelled by `Iref.Iput`) are not part of this contract.
- DirOps.Link: `iput` here is the reference-count decrement `Namei.Drop`. The last `iput`'s write-back of a dirty inode, its `truncate` and `free_inode` of an inode without links, and a pipe's `free_page` (fs/inode.c:252-304, modelled by `Iref.Iput`) are not part of this contract.
- Create.MknodEnd: `iput` here is the reference-count decrement `Namei.Drop`. The last `iput`'s write-back of a dirty inode, its `truncate` and `free_inode` of an inode without links, and a pipe's `free_page` (fs/inode.c:252-304, modelled by `Iref.Iput`) are not part of this contract.
- Create.MknodEndIn: `iput` here is the reference-count decrement `Namei.Drop`. The last `iput`'s write-back of a dirty inode, its `truncate` and `free_inode` of an inode without links, and a pipe's `free_page` (fs/inode.c:252-304, modelled by `Iref.Iput`) are not part of this contract.
- Create.MknodEffect: `iput` here is the reference-count decrement `Namei.Drop`. The last `iput`'s write-back of a dirty inode, its `truncate` and `free_inode` of an inode without links, and a pipe's `free_page` (fs/inode.c:252-304, modelled by `Iref.Iput`) are not part of this contract.
- Create.Mknod: `iput` here is the reference-count decrement `Namei.Drop`. The last `iput`'s write-back of a dirty inode, its `truncate` and `free_inode` of an inode without links, and a pipe's `free_page` (fs/inode.c:252-304, modelled by `Iref.Iput`) are not part of this contract.
- Create.MknodHeld: `iput` here is the reference-count decrement `Namei.Drop`. The last `iput`'s write-back of a dirty inode, its `truncate` and `free_inode` of an inode without links, and a pipe's `free_page` (fs/inode.c:252-304, modelled by `Iref.Iput`) are not part of this contract.
- Create.MknodIn: `iput` here is the reference-count decrement `Namei.Drop`. The last `iput`'s write-back of a dirty inode, its `truncate` and `free_inode` of an inode without links, and a pipe's `free_page` (fs/inode.c:252-304, modelled by `Iref.Iput`) are not part of this contract.
- Create.MkdirEnd: `iput` here is the reference-count decrement `Namei.Drop`. The last `iput`'s write-back of a dirty inode, its `truncate` and `free_inode` of an inode without links, and a pipe's `free_page` (fs/inode.c:252-304, modelled by `Iref.Iput`) are not part of this contract.
- Create.MkdirEndIn: `iput` here is the reference-count decrement `Namei.Drop`. The last `iput`'s write-back of a dirty inode, its `truncate` and `free_inode` of an inode without links, and a pipe's `free_page` (fs/inode.c:252-304, modelled by `Iref.Iput`) are not part of this contract.
- Create.MkdirEffect: `iput` here is the reference-count decrement `Namei.Drop`. The last `iput`'s write-back of a dirty inode, its `truncate` and `free_inode` of an inode without links, and a pipe's `free_page` (fs/inode.c:252-304, modelled by `Iref.Iput`) are not part of this contract.
- Create.Mkdir: `iput` here is the reference-count decrement `Namei.Drop`. The last `iput`'s write-back of a dirty inode, its `truncate` and `free_inode` of an inode without links, and a pipe's `free_page` (fs/inode.c:252-304, modelled by `Iref.Iput`) are not part of this contract.
- Create.MkdirHeld: `iput` here is the reference-count decrement `Namei.Drop`. The last `iput`'s write-back of a dirty inode, its `truncate` and `free_inode` of an inode without links, and a pipe's `free_page` (fs/inode.c:252-304, modelled by `Iref.Iput`) are not part of this contract.
- Create.MkdirIn: `iput` here is the reference-count decrement `Namei.Drop`. The last `iput`'s write-back of a dirty inode, its `truncate` and `free_inode` of an inode without links, and a pipe's `free_page` (fs/inode.c:252-304, modelled by `Iref.Iput`) are not part of this contract.
- Create.MkdirBlock: `iput` here is the reference-count decrement `Namei.Drop`. The last `iput`'s write-back of a dirty inode, its `truncate` and `free_inode` of an inode without links, and a pipe's `free_page` (fs/inode.c:252-304, modelled by `Iref.Iput`) are not part of this contract.
- Create.MkdirSeed: `iput` here is the reference-count decrement `Namei.Drop`. The last `iput`'s write-back of a dirty inode, its `truncate` and `free_inode` of an inode without links, and a pipe's `free_page` (fs/inode.c:252-304, modelled by `Iref.Iput`) are not part of this contract.
- OpenNamei.Reopen: `iput` here is the reference-count decrement `Namei.Drop`. The last `iput`'s write-back of a dirty inode, its `truncate` and `free_inode` of an inode without links, and a pipe's `free_page` (fs/inode.c:252-304, modelled by `Iref.Iput`) are not part of this contract.
- OpenNamei.ReopenEffect: `iput` here is the reference-count decrement `Namei.Drop`. The last `iput`'s write-back of a dirty inode, its `truncate` and `free_inode` of an inode without links, and a pipe's `free_page` (fs/inode.c:252-304, modelled by `Iref.Iput`) are not part of this contract.
- OpenNamei.Found: `iput` here is the reference-count decrement `Namei.Drop`. The last `iput`'s write-back of a dirty inode, its `truncate` and `free_inode` of an inode without links, and a pipe's `free_page` (fs/inode.c:252-304, modelled by `Iref.Iput`) are not part of this contract.
- OpenNamei.OpenEnd: `iput` here is the reference-count decrement `Namei.Drop`. The last `iput`'s write-back of a dirty inode, its `truncate` and `free_inode` of an inode without links, and a pipe's `free_page` (fs/inode.c:252-304, modelled by `Iref.Iput`) are not part of this contract.
- OpenNamei.OpenEndIn: `iput` here is the reference-count decrement `Namei.Drop`. The last `iput`'s write-back of a dirty inode, its `truncate` and `free_inode` of an inode without links, and a pipe's `free_page` (fs/inode.c:252-304, modelled by `Iref.Iput`) are not part of this contract.
- OpenNamei.OpenEffect: `iput` here is the reference-count decrement `Namei.Drop`. The last `iput`'s write-back of a dirty inode, its `truncate` and `free_inode` of an inode without links, and a pipe's `free_page` (fs/inode.c:252-304, modelled by `Iref.Iput`) are not part of this contract.
- OpenNamei.MakeFile: `iput` here is the reference-count decrement `Namei.Drop`. The last `iput`'s write-back of a dirty inode, its `truncate` and `free_inode` of an inode without links, and a pipe's `free_page` (fs/inode.c:252-304, modelled by `Iref.Iput`) are not part of this contract.
- OpenNamei.MakeFileIn: `iput` here is the reference-count decrement `Namei.Drop`. The last `iput`'s write-back of a dirty inode, its `truncate` and `free_inode` of an inode without links, and a pipe's `free_page` (fs/inode.c:252-304, modelled by `Iref.Iput`) are not part of this contract.
- OpenNamei.Open: `iput` here is the reference-count decrement `Namei.Drop`. The last `iput`'s write-back of a dirty inode, its `truncate` and `free_inode` of an inode without links, and a pipe's `free_page` (fs/inode.c:252-304, modelled by `Iref.Iput`) are not part of this contract.
- OpenNamei.OpenAt: `iput` here is the reference-count decrement `Namei.Drop`. The last `iput`'s write-back of a dirty inode, its `truncate` and `free_inode` of an inode without links, and a pipe's `free_page` (fs/inode.c:252-304, modelled by `Iref.Iput`) are not part of this contract.
- OpenFiles.Seen: `iput` here is the reference-count decrement `Namei.Drop`. The last `iput`'s write-back of a dirty inode, its `truncate` and `free_inode` of an inode without links, and a pipe's `free_page` (fs/inode.c:252-304, modelled by `Iref.Iput`) are not part of this contract.
- OpenFiles.TouchedBack: `iput` here is the reference-count decrement `Namei.Drop`. The last `iput`'s write-back of a dirty inode, its `truncate` and `free_inode` of an inode without links, and a pipe's `free_page` (fs/inode.c:252-304, modelled by `Iref.Iput`) are not part of this contract.
- OpenFiles.HeldBack: `iput` here is the reference-count decrement `Namei.Drop`. The last `iput`'s write-back of a dirty inode, its `truncate` and `free_inode` of an inode without links, and a pipe's `free_page` (fs/inode.c:252-304, modelled by `Iref.Iput`) are not part of this contract.
- OpenFiles.Release: `iput` here is the reference-count decrement `Namei.Drop`. The last `iput`'s write-back of a dirty inode, its `truncate` and `free_inode` of an inode without links, and a pipe's `free_page` (fs/inode.c:252-304, modelled by `Iref.Iput`) are not part of this contract.
- OpenFiles.PutBack: `iput` here is the reference-count decrement `Namei.Drop`. The last `iput`'s write-back of a dirty inode, its `truncate` and `free_inode` of an inode without links, and a pipe's `free_page` (fs/inode.c:252-304, modelled by `Iref.Iput`) are not part of this contract.
- OpenFiles.Utime: `iput` here is the reference-count decrement `Namei.Drop`. The last `iput`'s write-back of a dirty inode, its `truncate` and `free_inode` of an inode without links, and a pipe's `free_page` (fs/inode.c:252-304, modelled by `Iref.Iput`) are not part of this contract.
- OpenFiles.SysAccess: `iput` here is the reference-count decrement `Namei.Drop`. The last `iput`'s write-back of a dirty inode, its `truncate` and `free_inode` of an inode without links, and a pipe's `free_page` (fs/inode.c:252-304, modelled by `Iref.Iput`) are not part of this contract.
- OpenFiles.ChangeDir: `iput` here is the reference-count decrement `Namei.Drop`. The last `iput`'s write-back of a dirty inode, its `truncate` and `free_inode` of an inode without links, and a pipe's `free_page` (fs/inode.c:252-304, modelled by `Iref.Iput`) are not part of this contract.
- OpenFiles.Chdir: `iput` here is the reference-count decrement `Namei.Drop`. The last `iput`'s write-back of a dirty inode, its `truncate` and `free_inode` of an inode without links, and a pipe's `free_page` (fs/inode.c:252-304, modelled by `Iref.Iput`) are not part of this contract.
- OpenFiles.Chroot: `iput` here is the reference-count decrement `Namei.Drop`. The last `iput`'s write-back of a dirty inode, its `truncate` and `free_inode` of an inode without links, and a pipe's `free_page` (fs/inode.c:252-304, modelled by `Iref.Iput`) are not part of this contract.
- OpenFiles.Chmod: `iput` here is the reference-count decrement `Namei.Drop`. The last `iput`'s write-back of a dirty inode, its `truncate` and `free_inode` of an inode without links, and a pipe's `free_page` (fs/inode.c:252-304, modelled by `Iref.Iput`) are not part of this contract.
- OpenFiles.Chown: `iput` here is the reference-count decrement `Namei.Drop`. The last `iput`'s write-back of a dirty inode, its `truncate` and `free_inode` of an inode without links, and a pipe's `free_page` (fs/inode.c:252-304, modelled by `Iref.Iput`) are not part of this contract.
- OpenFiles.Install: `iput` here is the reference-count decrement `Namei.Drop`. The last `iput`'s write-back of a dirty inode, its `truncate` and `free_inode` of an inode without links, and a pipe's `free_page` (fs/inode.c:252-304, modelled by `Iref.Iput`) are not part of this contract.
- OpenFiles.SysOpen: `iput` here is the reference-count decrement `Namei.Drop`. The last `iput`'s write-back of a dirty inode, its `truncate` and `free_inode` of an inode without links, and a pipe's `free_page` (fs/inode.c:252-304, modelled by `Iref.Iput`) are not part of this contract.
- OpenFiles.OpenedSlot: `iput` here is the reference-count decrement `Namei.Drop`. The last `iput`'s write-back of a dirty inode, its `truncate` and `free_inode` of an inode without links, and a pipe's `free_page` (fs/inode.c:252-304, modelled by `Iref.Iput`) are not part of this contract.
- OpenFiles.Creat: `iput` here is the reference-count decrement `Namei.Drop`. The last `iput`'s write-back of a dirty inode, its `truncate` and `free_inode` of an inode without links, and a pipe's `free_page` (fs/inode.c:252-304, modelled by `Iref.Iput`) are not part of this contract.
- DirOps.UnlinkDone: the closing `iput(dir)` is the reference-count decrement `Namei.Drop`, so a dirty parent directory whose last reference it was is not written back; the `iput` of the inode itself is modelled by `Iref.PutLast` or `Iref.Release`.
- DirOps.UnlinkFrom: the closing `iput(dir)` is the reference-count decrement `Namei.Drop`, so a dirty parent directory whose last reference it was is not written back; the `iput` of the inode itself is modelled by `Iref.PutLast` or `Iref.Release`.
- DirOps.UnlinkEffect: the closing `iput(dir)` is the reference-count decrement `Namei.Drop`, so a dirty parent directory whose last reference it was is not written back; the `iput` of the inode itself is modelled by `Iref.PutLast` or `Iref.Release`.
- DirOps.Unlink: the closing `iput(dir)` is the reference-count decrement `Namei.Drop`, so a dirty parent directory whose last reference it was is not written back; the `iput` of the inode itself is modelled by `Iref.PutLast` or `Iref.Release`.
- DirOps.RmdirDone: the closing `iput(dir)` is the reference-count decrement `Namei.Drop`, so a dirty parent directory whose last reference it was is not written back; the `iput` of the inode itself is modelled by `Iref.PutLast` or `Iref.Release`.
- DirOps.RmdirFrom: the closing `iput(dir)` is the reference-count decrement `Namei.Drop`, so a dirty parent directory whose last reference it was is not written back; the `iput` of the inode itself is modelled by `Iref.PutLast` or `Iref.Release`.
- DirOps.RmdirEffect: the closing `iput(dir)` is the reference-count decrement `Namei.Drop`, so a dirty parent directory whose last reference it was is not written back; the `iput` of the inode itself is modelled by `Iref.PutLast` or `Iref.Release`.
- DirOps.Rmdir: the closing `iput(dir)` is the reference-count decrement `Namei.Drop`, so a dirty parent directory whose last reference it was is not written back; the `iput` of the inode itself is modelled by `Iref.PutLast` or `Iref.Release`.
- FileDev.WriteChunkFrame: `create_block` is the parameter `zoneOf`, and every block written must already be mapped and cached (`FileDev.Framed`). The zone `create_block` allocates through `new_block`, the pointer it sets and the inode it dirties when a write goes past the mapped blocks (fs/inode.c:396-399, modelled by `Bmap.CreateBlock`) are not modelled here, so the write-then-read round trip covers already-mapped blocks only.
- FileDev.WriteChunkBytes: `create_block` is the parameter `zoneOf`, and every block written must already be mapped and cached (`FileDev.Framed`). The zone `create_block` allocates through `new_block`, the pointer it sets and the inode it dirties when a write goes past the mapped blocks (fs/inode.c:396-399, modelled by `Bmap.CreateBlock`) are not modelled here, so the write-then-read round trip covers already-mapped blocks only.
- FileDev.WriteFile: `create_block` is the parameter `zoneOf`, and every block written must already be mapped and cached (`FileDev.Framed`). The zone `create_block` allocates through `new_block`, the pointer it sets and the inode it dirties when a write goes past the mapped blocks (fs/inode.c:396-399, modelled by `Bmap.CreateBlock`) are not modelled here, so the write-then-read round trip covers already-mapped blocks only.
- FileDev.Wrote: `create_block` is the parameter `zoneOf`, and every block written must already be mapped and cached (`FileDev.Framed`). The zone `create_block` allocates through `new_block`, the pointer it sets and the inode it dirties when a write goes past the mapped blocks (fs/inode.c:396-399, modelled by `Bmap.CreateBlock`) are not modelled here, so the write-then-read round trip covers already-mapped blocks only.
- FileDev.WriteStep: `create_block` is the parameter `zoneOf`, and every block written must already be mapped and cached (`FileDev.Framed`). The zone `create_block` allocates through `new_block`, the pointer it sets and the inode it dirties when a write goes past the mapped blocks (fs/inode.c:396-399, modelled by `Bmap.CreateBlock`) are not modelled here, so the write-then-read round trip covers already-mapped blocks only.
- FileDev.WriteChunk: `create_block` is the parameter `zoneOf`, and every block written must already be mapped and cached (`FileDev.Framed`). The zone `create_block` allocates through `new_block`, the pointer it sets and the inode it dirties when a write goes past the mapped blocks (fs/inode.c:396-399, modelled by `Bmap.CreateBlock`) are not modelled here, so the write-then-read round trip covers already-mapped blocks only.
- FileDev.WriteThenRead: `create_block` is the parameter `zoneOf`, and every block written must already be mapped and cached (`FileDev.Framed`). The zone `create_block` allocates through `new_block`, the pointer it sets and the inode it dirties when a write goes past the mapped blocks (fs/inode.c:396-399, modelled by `Bmap.CreateBlock`) are not modelled here, so the write-then-read round trip covers already-mapped blocks only.
- FileDev.WriteStart: `create_block` is the parameter `zoneOf`, and every block written must already be mapped and cached (`FileDev.Framed`). The zone `create_block` allocates through `new_block`, the pointer it sets and the inode it dirties when a write goes past the mapped blocks (fs/inode.c:396-399, modelled by `Bmap.CreateBlock`) are not modelled here, so the write-then-read round trip covers already-mapped blocks only.
- FileDev.FileWrite: `create_block` is the parameter `zoneOf`, and every block written must already be mapped and cached (`FileDev.Framed`). The zone `create_block` allocates through `new_block`, the pointer it sets and the inode it dirties when a write goes past the mapped blocks (fs/inode.c:396-399, modelled by `Bmap.CreateBlock`) are not modelled here, so the write-then-read round trip covers already-mapped blocks only.
- Dirs.ReadAddBlock: `create_block` in `add_entry_safely` (fs/namei.c:150) is the parameter `zoneOf`. The zone `new_block` gives a directory that grows and the pointer it sets are not modelled: an entry is stored only in a block `zoneOf` names that is already cached, and `Dirs.AddThenFind` assumes every block already mapped.
- Dirs.FindFrom: when `bmap` gives no zone or `bread` fails, `find_entry` sets `bh` to NULL, skips the block and runs `continue` (fs/namei.c:259-263). The next loop test then reads `bh->b_data` through that NULL pointer (fs/namei.c:256), so whatever word is at address 0 decides whether the scan goes on. The model moves on to the next block instead.
- Dirs.ScanEntries: it is the loop `Dirs.FindFrom` specifies, so it also skips an unreadable block where the source reads `bh->b_data` through NULL (fs/namei.c:256-263).
- Dirs.AddFrom: when `bread` fails, `add_entry_safely` sets `bh` to NULL, skips the block and runs `continue` (fs/namei.c:148-156). The next loop test reads `bh->b_data` through that NULL pointer (fs/namei.c:146). The model moves on to the next block instead.
- Dirs.AddScan: it is the loop `Dirs.AddFrom` specifies, so it also skips an unreadable block where the source reads `bh->b_data` through NULL (fs/namei.c:146-156).
- Dirs.AddScan: `create_block` in `add_entry_safely` (fs/namei.c:150) is the parameter `zoneOf`. The zone `new_block` gives a directory that grows and the pointer it sets are not modelled: an entry is stored only in a block `zoneOf` names that is already cached, and `Dirs.AddThenFind` assumes every block already mapped.
- Dirs.AddSpecAt: `create_block` in `add_entry_safely` (fs/namei.c:150) is the parameter `zoneOf`. The zone `new_block` gives a directory that grows and the pointer it sets are not modelled: an entry is stored only in a block `zoneOf` names that is already cached, and `Dirs.AddThenFind` assumes every block already mapped.
- Dirs.Insert: `create_block` in `add_entry_safely` (fs/namei.c:150) is the parameter `zoneOf`. The zone `new_block` gives a directory that grows and the pointer it sets are not modelled: an entry is stored only in a block `zoneOf` names that is already cached, and `Dirs.AddThenFind` assumes every block already mapped.
- Dirs.InsertReads: `create_block` in `add_entry_safely` (fs/namei.c:150) is the parameter `zoneOf`. The zone `new_block` gives a directory that grows and the pointer it sets are not modelled: an entry is stored only in a block `zoneOf` names that is already cached, and `Dirs.AddThenFind` assumes every block already mapped.
- Dirs.AddEntry: `create_block` in `add_entry_safely` (fs/namei.c:150) is the parameter `zoneOf`. The zone `new_block` gives a directory that grows and the pointer it sets are not modelled: an entry is stored only in a block `zoneOf` names that is already cached, and `Dirs.AddThenFind` assumes every block already mapped.
- Dirs.StoreEntry: `create_block` in `add_entry_safely` (fs/namei.c:150) is the parameter `zoneOf`. The zone `new_block` gives a directory that grows and the pointer it sets are not modelled: an entry is stored only in a block `zoneOf` names that is already cached, and `Dirs.AddThenFind` assumes every block already mapped.
- Dirs.AddThenFind: `create_block` in `add_entry_safely` (fs/namei.c:150) is the parameter `zoneOf`. The zone `new_block` gives a directory that grows and the pointer it sets are not modelled: an entry is stored only in a block `zoneOf` names that is already cached, and `Dirs.AddThenFind` assumes every block already mapped.
- DirOps.LinkAdd: `create_block` in `add_entry_safely` (fs/namei.c:150) is the parameter `zoneOf`. The zone `new_block` gives a directory that grows and the pointer it sets are not modelled: an entry is stored only in a block `zoneOf` names that is already cached, and `Dirs.AddThenFind` assumes every block already mapped.
- DirOps.LinkAddIn: `create_block` in `add_entry_safely` (fs/namei.c:150) is the parameter `zoneOf`. The zone `new_block` gives a directory that grows and the pointer it sets are not modelled: an entry is stored only in a block `zoneOf` names that is already cached, and `Dirs.AddThenFind` assumes every block already mapped.
- DirOps.LinkAddEffect: `create_block` in `add_entry_safely` (fs/namei.c:150) is the parameter `zoneOf`. The zone `new_block` gives a directory that grows and the pointer it sets are not modelled: an entry is stored only in a block `zoneOf` names that is already cached, and `Dirs.AddThenFind` assumes every block already mapped.
- DirOps.InsertNew: `create_block` in `add_entry_safely` (fs/namei.c:150) is the parameter `zoneOf`. The zone `new_block` gives a directory that grows and the pointer it sets are not modelled: an entry is stored only in a block `zoneOf` names that is already cached, and `Dirs.AddThenFind` assumes every block already mapped.
- Create.MkdirAdd: `create_block` in `add_entry_safely` (fs/namei.c:150) is the parameter `zoneOf`. The zone `new_block` gives a directory that grows and the pointer it sets are not modelled: an entry is stored only in a block `zoneOf` names that is already cached, and `Dirs.AddThenFind` assumes every block already mapped.
- Create.MkdirAddIn: `create_block` in `add_entry_safely` (fs/namei.c:150) is the parameter `zoneOf`. The zone `new_block` gives a directory that grows and the pointer it sets are not modelled: an entry is stored only in a block `zoneOf` names that is already cached, and `Dirs.AddThenFind` assumes every block already mapped.
- Create.MkdirAddEffect: `create_block` in `add_entry_safely` (fs/namei.c:150) is the parameter `zoneOf`. The zone `new_block` gives a directory that grows and the pointer it sets are not modelled: an entry is stored only in a block `zoneOf` names that is already cached, and `Dirs.AddThenFind` assumes every block already mapped.
- Create.MkdirAddSlots: `create_block` in `add_entry_safely` (fs/namei.c:150) is the parameter `zoneOf`. The zone `new_block` gives a directory that grows and the pointer it sets are not modelled: an entry is stored only in a block `zoneOf` names that is already cached, and `Dirs.AddThenFind` assumes every block already mapped.
- OpenFiles.Closed: the inode table is stated at the level of reference counts (`Namei.Drop` on a file's last close). What the `iput` of that last close does to the inode, the superblocks and the blocks is stated by `OpenFiles.Close` through `Iref.IputDid`.
- OpenFiles.CloseUndoesOpen: relates `sys_open` and `sys_close` through `OpenFiles.Closed`, at the level of reference counts; the write-back the last close's `iput` makes of an inode `open_namei` dirtied is stated by `OpenFiles.Close`, not here.
- Create.MkdirSeed: its -ENOSPC path frees `i_zone[0]` once and puts the new directory with `Namei.Drop`, as the Findings row for fs/namei.c:744-747 intends; the release of the new inode by that last `iput` is not modelled.
- Exit.DoExit: the reset of the controlling tty's process group by a session leader and the clearing of `last_task_used_math` (kernel/exit.c:137-138) are not modelled: the tty table and the owner of the coprocessor are not part of the model.
- Create.Mkdir: its path is resolved through `Namei.Igets`, so only paths whose inodes are already in the inode table are modelled; where the source's `iget` would read an inode that is not cached (fs/inode.c:350-365), the model answers NONE or -ENOENT.
- Create.Mknod: its path is resolved through `Namei.Igets`, so only paths whose inodes are already in the inode table are modelled; where the source's `iget` would read an inode that is not cached (fs/inode.c:350-365), the model answers NONE or -ENOENT.
- DirOps.EntrySlot: its path is resolved through `Namei.Igets`, so only paths whose inodes are already in the inode table are modelled; where the source's `iget` would read an inode that is not cached (fs/inode.c:350-365), the model answers NONE or -ENOENT.
- DirOps.Link: its path is resolved through `Namei.Igets`, so only paths whose inodes are already in the inode table are modelled; where the source's `iget` would read an inode that is not cached (fs/inode.c:350-365), the model answers NONE or -ENOENT.
- DirOps.LinkEffect: its path is resolved through `Namei.Igets`, so only paths whose inodes are already in the inode table are modelled; where the source's `iget` would read an inode that is not cached (fs/inode.c:350-365), the model answers NONE or -ENOENT.
- DirOps.LinkIn: its path is resolved through `Namei.Igets`, so only paths whose inodes are already in the inode table are modelled; where the source's `iget` would read an inode that is not cached (fs/inode.c:350-365), the model answers NONE or -ENOENT.
- DirOps.LinkSpec: its path is resolved through `Namei.Igets`, so only paths whose inodes are already in the inode table are modelled; where the source's `iget` would read an inode that is not cached (fs/inode.c:350-365), the model answers NONE or -ENOENT.
- DirOps.LinkTo: its path is resolved through `Namei.Igets`, so only paths whose inodes are already in the inode table are modelled; where the source's `iget` would read an inode that is not cached (fs/inode.c:350-365), the model answers NONE or -ENOENT.
- DirOps.LinkToEffect: its path is resolved through `Namei.Igets`, so only paths whose inodes are already in the inode table are modelled; where the source's `iget` would read an inode that is not cached (fs/inode.c:350-365), the model answers NONE or -ENOENT.
- DirOps.LinkToIn: its path is resolved through `Namei.Igets`, so only paths whose inodes are already in the inode table are modelled; where the source's `iget` would read an inode that is not cached (fs/inode.c:350-365), the model answers NONE or -ENOENT.
- DirOps.Rmdir: its path is resolved through `Namei.Igets`, so only paths whose inodes are already in the inode table are modelled; where the source's `iget` would read an inode that is not cached (fs/inode.c:350-365), the model answers NONE or -ENOENT.
- DirOps.RmdirEffect: its path is resolved through `Namei.Igets`, so only paths whose inodes are already in the inode table are modelled; where the source's `iget` would read an inode that is not cached (fs/inode.c:350-365), the model answers NONE or -ENOENT.
- DirOps.RmdirIn: its path is resolved through `Namei.Igets`, so only paths whose inodes are already in the inode table are modelled; where the source's `iget` would read an inode that is not cached (fs/inode.c:350-365), the model answers NONE or -ENOENT.
- DirOps.RmdirSpec: its path is resolved through `Namei.Igets`, so only paths whose inodes are already in the inode table are modelled; where the source's `iget` would read an inode that is not cached (fs/inode.c:350-365), the model answers NONE or -ENOENT.
- DirOps.Unlink: its path is resolved through `Namei.Igets`, so only paths whose inodes are already in the inode table are modelled; where the source's `iget` would read an inode that is not cached (fs/inode.c:350-365), the model answers NONE or -ENOENT.
- DirOps.UnlinkEffect: its path is resolved through `Namei.Igets`, so only paths whose inodes are already in the inode table are modelled; where the source's `iget` would read an inode that is not cached (fs/inode.c:350-365), the model answers NONE or -ENOENT.
- DirOps.UnlinkIn: its path is resolved through `Namei.Igets`, so only paths whose inodes are already in the inode table are modelled; where the source's `iget` would read an inode that is not cached (fs/inode.c:350-365), the model answers NONE or -ENOENT.
- DirOps.UnlinkSpec: its path is resolved through `Namei.Igets`, so only paths whose inodes are already in the inode table are modelled; where the source's `iget` would read an inode that is not cached (fs/inode.c:350-365), the model answers NONE or -ENOENT.
- DirOps.LinkClean: its path is resolved through `Namei.Igets`, so only paths whose inodes are already in the inode table are modelled; where the source's `iget` would read an inode that is not cached (fs/inode.c:350-365), the model answers NONE or -ENOENT.
- DirOps.LinkToClean: its path is resolved through `Namei.Igets`, so only paths whose inodes are already in the inode table are modelled; where the source's `iget` would read an inode that is not cached (fs/inode.c:350-365), the model answers NONE or -ENOENT.
- DirOps.RmdirClean: its path is resolved through `Namei.Igets`, so only paths whose inodes are already in the inode table are modelled; where the source's `iget` would read an inode that is not cached (fs/inode.c:350-365), the model answers NONE or -ENOENT.
- DirOps.UnlinkClean: its path is resolved through `Namei.Igets`, so only paths whose inodes are already in the inode table are modelled; where the source's `iget` would read an inode that is not cached (fs/inode.c:350-365), the model answers NONE or -ENOENT.
- DirOps.LikeSound: its path is resolved through `Namei.Igets`, so only paths whose inodes are already in the inode table are modelled; where the source's `iget` would read an inode that is not cached (fs/inode.c:350-365), the model answers NONE or -ENOENT.
- OpenFiles.Chdir: its path is resolved through `Namei.Igets`, so only paths whose inodes are already in the inode table are modelled; where the source's `iget` would read an inode that is not cached (fs/inode.c:350-365), the model answers NONE or -ENOENT.
- OpenFiles.Chmod: its path is resolved through `Namei.Igets`, so only paths whose inodes are already in the inode table are modelled; where the source's `iget` would read an inode that is not cached (fs/inode.c:350-365), the model answers NONE or -ENOENT.
- OpenFiles.Chown: its path is resolved through `Namei.Igets`, so only paths whose inodes are already in the inode table are modelled; where the source's `iget` would read an inode that is not cached (fs/inode.c:350-365), the model answers NONE or -ENOENT.
- OpenFiles.Chroot: its path is resolved through `Namei.Igets`, so only paths whose inodes are already in the inode table are modelled; where the source's `iget` would read an inode that is not cached (fs/inode.c:350-365), the model answers NONE or -ENOENT.
- OpenFiles.OpenedSlot: its path is resolved through `Namei.Igets`, so only paths whose inodes are already in the inode table are modelled; where the source's `iget` would read an inode that is not cached (fs/inode.c:350-365), the model answers NONE or -ENOENT.
- OpenFiles.SysAccess: its path is resolved through `Namei.Igets`, so only paths whose inodes are already in the inode table are modelled; where the source's `iget` would read an inode that is not cached (fs/inode.c:350-365), the model answers NONE or -ENOENT.
- OpenFiles.Utime: its path is resolved through `Namei.Igets`, so only paths whose inodes are already in the inode table are modelled; where the source's `iget` would read an inode that is not cached (fs/inode.c:350-365), the model answers NONE or -ENOENT.
- OpenFiles.SysOpen: its path is resolved through `Namei.Igets`, so only paths whose inodes are already in the inode table are modelled; where the source's `iget` would read an inode that is not cached (fs/inode.c:350-365), the model answers NONE or -ENOENT.
- OpenFiles.ChangeDir: its path is resolved through `Namei.Igets`, so only paths whose inodes are already in the inode table are modelled; where the source's `iget` would read an inode that is not cached (fs/inode.c:350-365), the model answers NONE or -ENOENT.
- OpenFiles.Creat: its path is resolved through `Namei.Igets`, so only paths whose inodes are already in the inode table are modelled; where the source's `iget` would read an inode that is not cached (fs/inode.c:350-365), the model answers NONE or -ENOENT.
- OpenNamei.Found: its path is resolved through `Namei.Igets`, so only paths whose inodes are already in the inode table are modelled; where the source's `iget` would read an inode that is not cached (fs/inode.c:350-365), the model answers NONE or -ENOENT.
- OpenNamei.Open: its path is resolved through `Namei.Igets`, so only paths whose inodes are already in the inode table are modelled; where the source's `iget` would read an inode that is not cached (fs/inode.c:350-365), the model answers NONE or -ENOENT.
- OpenNamei.OpenAt: its path is resolved through `Namei.Igets`, so only paths whose inodes are already in the inode table are modelled; where the source's `iget` would read an inode that is not cached (fs/inode.c:350-365), the model answers NONE or -ENOENT.
- OpenNamei.Reopen: its path is resolved through `Namei.Igets`, so only paths whose inodes are already in the inode table are modelled; where the source's `iget` would read an inode that is not cached (fs/inode.c:350-365), the model answers NONE or -ENOENT.
- OpenNamei.ReopenEffect: its path is resolved through `Namei.Igets`, so only paths whose inodes are already in the inode table are modelled; where the source's `iget` would read an inode that is not cached (fs/inode.c:350-365), the model answers NONE or -ENOENT.
- Exit.Release: the `schedule()` that ends `release()` (kernel/exit.c:27) is not part of this method; it is the separate step `Sched.Schedule`, which may run the alarm and wake-up loop and switch `current`.
- Exit.SysWaitpid: the `schedule()` that ends `fast_release()` when a zombie child is reaped (kernel/exit.c:38), and the one a caller that goes to sleep runs, are not part of this method; each is the separate step `Sched.Schedule`.
- Exit.DoExit: the closing `schedule()` (kernel/exit.c:147) is not part of this method; it is the separate step `Sched.Schedule`, which switches away from the zombie.
- Sched.SysAlarm: `jiffies` itself is an unbounded counter here, not a 32-bit `long`; the alarm and the difference `old - jiffies` are wrapped, but the wrap of `jiffies` after 2^31 ticks (about 248 days at 100 Hz) is not modelled.

## Findings

| source | as written | input that shows it | evidently intended | confidence | as-written member | corrected member |
|---|---|---|---|---|---|---|
| fs/bitmap.c:118 | `BLCK_BITS` is unparenthesised, so `i * BLCK_BITS + s_firstdatazone - 1` shifts `i * 1024` left by `s_firstdatazone + 2` and adds nothing for the data-zone offset | first clear bit 5 of zone-bitmap block 0 on a device whose data zones start at 20: zone 5 is handed out | zone `i * 8192 + j + s_firstdatazone - 1`, here 24 | high; not executed | Bitmap.NewBlockZoneAsWritten | Bitmap.ZoneBitRoundTrip, Alloc.NewBlock |
| fs/bitmap.c:173 | `BLCK_MASK` is unparenthesised, so `block & BLCK_MASK` is `block & 4096` | freeing bit 5 clears bit 0 | `block & 8191`, the bit inside its bitmap block | high; not executed | Bitmap.FreeBitAsWrittenWrong | Layout.MaskIntended, Alloc.FreeBlock, Truncate.FreeIn, TruncateFacts.RunReleases, TruncateFacts.TruncReleasesMapped |
| include/asm/system.h:69-77 | `_set_seg_desc` stores the word holding base bits 24-31 and the access byte first and the word holding base bits 0-15 second | base 1 reads back as base 0x40 | low word first, as the processor reads a descriptor | medium; not executed | Desc.SegDescAsWrittenSwapsWords | Desc.SegDescFields |
| fs/super.c:90-92 | the result of `get_free_super` is used without a NULL check | eight other devices loaded, then `read_super` of a ninth | return NULL when no slot is free | high; not executed | Supers.FullTableWritesThroughNull | Supers.ReadSuper |
| fs/bitmap.c:268 | `BLCK_MASK` is unparenthesised, so `inode->i_num & BLCK_MASK` is `i_num & 4096` (`Alloc.ReleasedInodeAsWritten`) | freeing inode 5 clears bit 0 of inode-bitmap block 0, which `read_super` set, and leaves bit 5 set, so inode 5 leaks and the next `new_inode` hands out inode 0 | `i_num & 8191`, the bit inside its bitmap block | high; not executed | Alloc.FreeInodeAsWrittenKeepsBit | Alloc.NewThenFreeInode, Alloc.FreeInode, Iref.Release |
| kernel/sched.c:291-295 | the walk moves the new timer past later ones by swapping `next` pointers, but never relinks the timer before it, so a timer two or more positions deep is spliced out of the list (`Timers.AddTimerAsWritten`) | timers due in 1 and 2 ticks, then a new one due in 5: the new timer fires after 4 ticks and the second timer is no longer on the list while its slot stays taken | insertion in order of expiry with every other timer kept | high; not executed | Timers.MislinkExample | Timers.AddTimer, Timers.InsertFacts |
| kernel/sched.c:289 | `next_timer->jiffies` is read even when the list is empty, so the test reads the word at address 0 | an empty list and a zero word at address 0: the new timer takes its slot and is never linked | start a list of one timer | high; not executed | Timers.NullHeadExample | Timers.AddTimer |
| fs/open.c:66 | when only the group matches, the mode is shifted by 6, giving the owner's bits (`OpenFiles.AccessAsWritten`, which `OpenFiles.SysAccess` keeps) | a file of mode 0040 that only its group may read, asked for reading by a group member who does not own it: -EACCES | shift by 3, as `permission` does | high; not executed | OpenFiles.GroupReadRefused | OpenFiles.AccessAsPermission, OpenFiles.AccessCovers |
| kernel/exit.c:84-88 | the `pid == -1` loop has no `*p` test, so an empty slot reaches `send_sig`, which answers -EINVAL for it (`Exit.SysKill` keeps this) | the superuser's `kill(-1, SIGTERM)` on a table with an empty slot above 0 returns -EINVAL | skip empty slots, as the other two loops do | high; not executed | Exit.KillAllSeesEmptySlots | Exit.KillIntendedBySuperuser, Exit.KillIntendedAgrees |
| fs/namei.c:403-425 | after a block with no zone the loop goes on with `bh` already released, and releases it again at the next block boundary or after the loop | a two-block directory whose second block has no zone and whose first block holds only `.` and `..`: the first buffer is released twice | release each buffer once | medium; not executed | Dirs.HoleReleasedTwice | Dirs.IsEmptyDir, Dirs.IsEmptyIff |
| fs/super.c:319 | `iput(sb->s_imount)` assumes that `namei` took a reference on the mount point, which it does only when the walk crossed it | `umount .` run from the mounted root, with the mount point held once: its count drops to 0 while the superblock still names it, and the busy scan then returns -EBUSY | drop the mount-point reference only when the walk took one | medium; not executed | Mount.DotStrandsMountPoint | Mount.Umount |
| fs/namei.c:744-747 | when `add_entry_safely` finds no room, `free_block(inode->i_dev, inode->i_zone[0])` leaves `i_zone[0]` set, and the `iput` of the new directory, whose link count was just set to 0, truncates it and frees that zone again | `mkdir` into a directory with no free entry and no room to grow: the second `free_block` finds the bit clear and halts with "bit already cleared" | free the zone once: clear `i_zone[0]` after the `free_block`, or leave the freeing to `truncate` | high; not executed | Create.MkdirNoRoomAsWritten | Create.MkdirSeed, Create.Accounted |
