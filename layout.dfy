/*
 * On-disk and in-memory layout of the Minix-style file system
 * (include/linux/fs.h): table sizes, the bitmap index macros, the pipe
 * head/tail arithmetic, device numbers, and the byte encodings of the
 * records that live inside 1024-byte blocks.
 */
module Layout {

  type byte = x: int | 0 <= x < 0x100
  type u16 = x: int | 0 <= x < 0x1_0000
  type u32 = x: int | 0 <= x < 0x1_0000_0000
  type i32 = x: int | -0x8000_0000 <= x < 0x8000_0000

  datatype Option<T> = None | Some(value: T)

  const NAME_LEN: nat := 14
  const ROOT_INO: nat := 1
  const I_MAP_SLOTS: nat := 8
  const Z_MAP_SLOTS: nat := 8
  const SUPER_MAGIC: nat := 0x137F
  const NR_OPEN: nat := 20
  const NR_INODE: nat := 32
  const NR_FILE: nat := 64
  const NR_SUPER: nat := 8
  const NR_HASH: nat := 307
  const BLOCK_SIZE: nat := 1024
  const BLOCK_SIZE_BITS: nat := 10
  const PAGE_SIZE: nat := 4096

  /** Number of bits held by one bitmap block. */
  const BITS_PER_BLOCK: nat := 8192

  /** Sizes of the packed records `struct d_inode` and `struct dir_entry`. */
  const D_INODE_SIZE: nat := 32
  const DIR_ENTRY_SIZE: nat := 16
  const D_SUPER_SIZE: nat := 18
  const INODES_PER_BLOCK: nat := BLOCK_SIZE / D_INODE_SIZE
  const DIR_ENTRIES_PER_BLOCK: nat := BLOCK_SIZE / DIR_ENTRY_SIZE

  /** Block-device request kinds. */
  const READ: nat := 0
  const WRITE: nat := 1
  const READA: nat := 2

  // ---------------------------------------------------------------------
  // Mode bits (the values of <sys/stat.h> and <const.h>)
  // ---------------------------------------------------------------------
  const S_IFMT: nat := 0xF000
  const S_IFREG: nat := 0x8000
  const S_IFBLK: nat := 0x6000
  const S_IFDIR: nat := 0x4000
  const S_IFCHR: nat := 0x2000
  const S_IFIFO: nat := 0x1000
  const S_ISVTX: nat := 0x200

  function FileType(mode: int): (r: int) { (mode % 0x1_0000) / 0x1000 * 0x1000 }
  predicate IsReg(mode: int) { FileType(mode) == S_IFREG }
  predicate IsDir(mode: int) { FileType(mode) == S_IFDIR }
  predicate IsBlk(mode: int) { FileType(mode) == S_IFBLK }
  predicate IsChr(mode: int) { FileType(mode) == S_IFCHR }

  /** `IS_SEEKABLE`: the majors of memory, floppy and hard disk. */
  predicate IsSeekable(major: int) { 1 <= major <= 3 }

  // ---------------------------------------------------------------------
  // Open flags (the values of <fcntl.h>)
  // ---------------------------------------------------------------------
  const O_ACCMODE: nat := 3
  const O_RDONLY: nat := 0
  const O_WRONLY: nat := 1
  const O_RDWR: nat := 2
  const O_CREAT: nat := 0x40
  const O_EXCL: nat := 0x80
  const O_TRUNC: nat := 0x200
  const O_APPEND: nat := 0x400

  /** `flags & bit` is non-zero, for a single-bit `bit`, on the two's-complement bits of `flags`. */
  predicate HasFlag(flags: int, bit: nat)
    requires bit > 0
  {
    flags % (2 * bit) >= bit
  }

  /** `flags & O_ACCMODE`. */
  function AccMode(flags: int): (m: int)
    ensures 0 <= m <= 3
  {
    flags % 4
  }

  // ---------------------------------------------------------------------
  // Error numbers (the values of <errno.h>)
  // ---------------------------------------------------------------------
  const ERROR: int := 99
  const EPERM: int := 1
  const ENOENT: int := 2
  const ESRCH: int := 3
  const EINTR: int := 4
  const EIO: int := 5
  const ENXIO: int := 6
  const EBADF: int := 9
  const ECHILD: int := 10
  const EAGAIN: int := 11
  const ENOMEM: int := 12
  const EACCES: int := 13
  const ENOTBLK: int := 15
  const EBUSY: int := 16
  const EEXIST: int := 17
  const EXDEV: int := 18
  const ENOTDIR: int := 20
  const EISDIR: int := 21
  const EINVAL: int := 22
  const ENFILE: int := 23
  const EMFILE: int := 24
  const ENOTTY: int := 25
  const EFBIG: int := 27
  const ENOSPC: int := 28
  const ESPIPE: int := 29
  const EROFS: int := 30
  const EMLINK: int := 31
  const EPIPE: int := 32
  const ENAMETOOLONG: int := 36
  const ENOSYS: int := 38
  const ENOTEMPTY: int := 39

  // ---------------------------------------------------------------------
  // Device numbers
  // ---------------------------------------------------------------------

  /** `MAJOR(a)`: the high byte of a 16-bit device number. */
  function Major(dev: u16): (m: int)
    ensures 0 <= m < 256
  {
    dev / 256
  }

  /** `MINOR(a)`: the low byte. */
  function Minor(dev: u16): (m: int)
    ensures 0 <= m < 256
  {
    dev % 256
  }

  /** A device number is recovered from its major and minor parts. */
  lemma MajorMinorRecombine(dev: u16)
    ensures Major(dev) * 256 + Minor(dev) == dev
  {
  }

  /** Distinct devices differ in the major or the minor part. */
  lemma MajorMinorInjective(d1: u16, d2: u16)
    requires Major(d1) == Major(d2) && Minor(d1) == Minor(d2)
    ensures d1 == d2
  {
    MajorMinorRecombine(d1);
    MajorMinorRecombine(d2);
  }

  // ---------------------------------------------------------------------
  // Bitmap indexing
  // ---------------------------------------------------------------------

  /** `ZMAP_INDX(n)` = `n >> 13`: the bitmap block that holds bit `n`. */
  function ZmapIndx(n: nat): (k: nat)
    ensures k * BITS_PER_BLOCK <= n < (k + 1) * BITS_PER_BLOCK
  {
    n / BITS_PER_BLOCK
  }

  /**
   * `BLCK_MASK` is `(BLCK_BITS - 1)` with `BLCK_BITS` unparenthesised, so it
   * expands to `(BLOCK_SIZE << 3 - 1)` = `BLOCK_SIZE << 2`.
   */
  const BLCK_MASK_AS_WRITTEN: nat := BLOCK_SIZE * 4

  /** `x & BLCK_MASK` as written: only bit 12 of `x` survives. */
  function MaskAsWritten(x: nat): (r: nat)
    ensures r == 0 || r == 4096
  {
    (x / 4096) % 2 * 4096
  }

  /** `x & (BLCK_BITS - 1)` as intended: the bit index inside its block. */
  function MaskIntended(x: nat): (r: nat)
    ensures r < BITS_PER_BLOCK
    ensures ZmapIndx(x) * BITS_PER_BLOCK + r == x
  {
    x % BITS_PER_BLOCK
  }

  // ---------------------------------------------------------------------
  // Pipes: head and tail are i_zone[0] and i_zone[1]
  // ---------------------------------------------------------------------

  /** `PIPE_SIZE`: `(head - tail) & 4095`, i.e. two's-complement difference mod 4096. */
  function PipeSize(head: int, tail: int): (n: int)
    ensures 0 <= n < PAGE_SIZE
    ensures (tail + n - head) % PAGE_SIZE == 0
  {
    (head - tail) % PAGE_SIZE
  }

  predicate PipeEmpty(head: int, tail: int) { head == tail }
  predicate PipeFull(head: int, tail: int) { PipeSize(head, tail) == PAGE_SIZE - 1 }

  /** For positions kept in [0, 4095], empty means size 0 and the size determines the head. */
  lemma PipeEmptyIffSizeZero(head: int, tail: int)
    requires 0 <= head < PAGE_SIZE && 0 <= tail < PAGE_SIZE
    ensures PipeEmpty(head, tail) <==> PipeSize(head, tail) == 0
    ensures head == (tail + PipeSize(head, tail)) % PAGE_SIZE
  {
  }

  // ---------------------------------------------------------------------
  // Little-endian fields inside a block
  // ---------------------------------------------------------------------

  function U16At(d: seq<byte>, off: nat): (v: u16)
    requires off + 2 <= |d|
  {
    d[off] as int + 256 * (d[off + 1] as int)
  }

  function U32At(d: seq<byte>, off: nat): (v: u32)
    requires off + 4 <= |d|
  {
    d[off] as int + 256 * (d[off + 1] as int) + 65536 * (d[off + 2] as int)
      + 16777216 * (d[off + 3] as int)
  }

  function U16Bytes(v: u16): (b: seq<byte>)
    ensures |b| == 2 && U16At(b, 0) == v
  {
    [v % 256, v / 256]
  }

  function U32Bytes(v: u32): (b: seq<byte>)
    ensures |b| == 4 && U32At(b, 0) == v
  {
    var a := v / 256;
    var c := a / 256;
    [v % 256, a % 256, c % 256, c / 256]
  }

  /** `struct d_inode`: the 32-byte inode record of the disk. */
  datatype DInode = DInode(mode: u16, uid: u16, size: u32, mtime: u32,
                           gid: byte, nlinks: byte, zone: seq<u16>)
  {
    ghost predicate Valid() { |zone| == 9 }
  }

  function ZoneBytes(z: seq<u16>): (b: seq<byte>)
    ensures |b| == 2 * |z|
    ensures forall k :: 0 <= k < |z| ==> U16At(b, 2 * k) == z[k]
  {
    if z == [] then [] else U16Bytes(z[0]) + ZoneBytes(z[1..])
  }

  function ZonesAt(d: seq<byte>, off: nat, n: nat): (z: seq<u16>)
    requires off + 2 * n <= |d|
    ensures |z| == n
    ensures forall k :: 0 <= k < n ==> z[k] == U16At(d, off + 2 * k)
    decreases n
  {
    if n == 0 then [] else [U16At(d, off)] + ZonesAt(d, off + 2, n - 1)
  }

  function EncodeDInode(i: DInode): (b: seq<byte>)
    requires i.Valid()
    ensures |b| == D_INODE_SIZE
  {
    U16Bytes(i.mode) + U16Bytes(i.uid) + U32Bytes(i.size) + U32Bytes(i.mtime)
      + [i.gid, i.nlinks] + ZoneBytes(i.zone)
  }

  function DecodeDInode(b: seq<byte>): (i: DInode)
    requires |b| >= D_INODE_SIZE
    ensures i.Valid()
  {
    DInode(U16At(b, 0), U16At(b, 2), U32At(b, 4), U32At(b, 8), b[12], b[13], ZonesAt(b, 14, 9))
  }

  /** A 16-bit field read inside a block reads the same from the field's own two bytes. */
  lemma U16AtSlice(d: seq<byte>, off: nat)
    requires off + 2 <= |d|
    ensures U16At(d, off) == U16At(d[off..off + 2], 0)
  {
  }

  /** A 32-bit field read inside a block reads the same from the field's own four bytes. */
  lemma U32AtSlice(d: seq<byte>, off: nat)
    requires off + 4 <= |d|
    ensures U32At(d, off) == U32At(d[off..off + 4], 0)
  {
  }

  /** Writing an inode record and reading it back gives the same record. */
  lemma DInodeRoundTrip(i: DInode)
    requires i.Valid()
    ensures DecodeDInode(EncodeDInode(i)) == i
  {
    var b := EncodeDInode(i);
    assert b[0..2] == U16Bytes(i.mode);
    U16AtSlice(b, 0);
    assert b[2..4] == U16Bytes(i.uid);
    U16AtSlice(b, 2);
    assert b[4..8] == U32Bytes(i.size);
    U32AtSlice(b, 4);
    assert b[8..12] == U32Bytes(i.mtime);
    U32AtSlice(b, 8);
    assert b[12] == i.gid && b[13] == i.nlinks;
    assert b[14..] == ZoneBytes(i.zone);
    var z := DecodeDInode(b).zone;
    forall k | 0 <= k < 9 ensures z[k] == i.zone[k] {
      assert U16At(b, 14 + 2 * k) == U16At(b[14..], 2 * k);
    }
  }

  /** `struct dir_entry`: a 16-byte directory slot; inode 0 means unused. */
  datatype DirEntry = DirEntry(ino: u16, name: seq<byte>)
  {
    ghost predicate Valid() { |name| == NAME_LEN }
  }

  function EncodeDirEntry(e: DirEntry): (b: seq<byte>)
    requires e.Valid()
    ensures |b| == DIR_ENTRY_SIZE
  {
    U16Bytes(e.ino) + e.name
  }

  function DecodeDirEntry(b: seq<byte>): (e: DirEntry)
    requires |b| >= DIR_ENTRY_SIZE
    ensures e.Valid()
  {
    DirEntry(U16At(b, 0), b[2..16])
  }

  lemma DirEntryRoundTrip(e: DirEntry)
    requires e.Valid()
    ensures DecodeDirEntry(EncodeDirEntry(e)) == e
  {
    var b := EncodeDirEntry(e);
    assert b[..2] == U16Bytes(e.ino);
    assert b[2..16] == e.name;
  }

  /** `struct d_super_block`: the first 18 bytes of block 1 of a device. */
  datatype DSuper = DSuper(ninodes: u16, nzones: u16, imapBlocks: u16, zmapBlocks: u16,
                           firstDataZone: u16, logZoneSize: u16, maxSize: u32, magic: u16)

  function EncodeDSuper(s: DSuper): (b: seq<byte>)
    ensures |b| == D_SUPER_SIZE
  {
    U16Bytes(s.ninodes) + U16Bytes(s.nzones) + U16Bytes(s.imapBlocks) + U16Bytes(s.zmapBlocks)
      + U16Bytes(s.firstDataZone) + U16Bytes(s.logZoneSize) + U32Bytes(s.maxSize) + U16Bytes(s.magic)
  }

  function DecodeDSuper(b: seq<byte>): (r: DSuper)
    requires |b| >= D_SUPER_SIZE
  {
    DSuper(U16At(b, 0), U16At(b, 2), U16At(b, 4), U16At(b, 6), U16At(b, 8), U16At(b, 10),
           U32At(b, 12), U16At(b, 16))
  }

  lemma DSuperRoundTrip(s: DSuper)
    ensures DecodeDSuper(EncodeDSuper(s)) == s
  {
    var b := EncodeDSuper(s);
    assert b[0..2] == U16Bytes(s.ninodes);
    assert b[2..4] == U16Bytes(s.nzones);
    assert b[4..6] == U16Bytes(s.imapBlocks);
    assert b[6..8] == U16Bytes(s.zmapBlocks);
    assert b[8..10] == U16Bytes(s.firstDataZone);
    assert b[10..12] == U16Bytes(s.logZoneSize);
    assert b[12..16] == U32Bytes(s.maxSize);
    assert b[16..18] == U16Bytes(s.magic);
  }

  /** Entry `k` of an index block: the `k`-th unsigned short of the block. */
  function IndexEntry(d: seq<byte>, k: nat): (r: u16)
    requires |d| == BLOCK_SIZE && k < BLOCK_SIZE / 2
  {
    U16At(d, 2 * k)
  }

  /** Replace `|b|` bytes of `d` at offset `off`. */
  function Splice(d: seq<byte>, off: nat, b: seq<byte>): (r: seq<byte>)
    requires off + |b| <= |d|
    ensures |r| == |d|
    ensures r[off..off + |b|] == b
    ensures forall k :: 0 <= k < |d| && !(off <= k < off + |b|) ==> r[k] == d[k]
  {
    d[..off] + b + d[off + |b|..]
  }

  function SetIndexEntry(d: seq<byte>, k: nat, v: u16): (r: seq<byte>)
    requires |d| == BLOCK_SIZE && k < BLOCK_SIZE / 2
    ensures |r| == BLOCK_SIZE
    ensures IndexEntry(r, k) == v
    ensures forall m :: 0 <= m < BLOCK_SIZE / 2 && m != k ==> IndexEntry(r, m) == IndexEntry(d, m)
  {
    Splice(d, 2 * k, U16Bytes(v))
  }

  /**
   * One step of the byte-range loops of fs/file_dev.c and fs/block_dev.c:
   * from `pos` up to the end of its block, and no more than `left`. A step
   * either finishes the transfer or ends on a block boundary.
   */
  function Chunk(pos: int, left: int): (c: int)
    requires left > 0
    ensures 0 < c <= left && pos % BLOCK_SIZE + c <= BLOCK_SIZE
    ensures c == left || (pos + c) % BLOCK_SIZE == 0
  {
    var c := if BLOCK_SIZE - pos % BLOCK_SIZE < left then BLOCK_SIZE - pos % BLOCK_SIZE else left;
    assert pos == BLOCK_SIZE * (pos / BLOCK_SIZE) + pos % BLOCK_SIZE;
    assert c != left ==> pos + c == BLOCK_SIZE * (pos / BLOCK_SIZE + 1);
    c
  }

  /** Byte `a` is byte `off` of block `blk`. */
  lemma BlockAt(a: int, blk: int, off: int)
    requires a == BLOCK_SIZE * blk + off && 0 <= off < BLOCK_SIZE
    ensures a / BLOCK_SIZE == blk && a % BLOCK_SIZE == off
  {
  }

  /** At byte `off` of block `blk`, a chunk is the rest of the block, or `left` if that is less. */
  lemma ChunkAt(a: int, blk: int, off: int, left: int)
    requires a == BLOCK_SIZE * blk + off && 0 <= off < BLOCK_SIZE && left > 0
    ensures a / BLOCK_SIZE == blk && a % BLOCK_SIZE == off
    ensures Chunk(a, left) == if BLOCK_SIZE - off < left then BLOCK_SIZE - off else left
  {
    BlockAt(a, blk, off);
  }

  /** The bytes of [`a`, `a + t`] for `t` inside one chunk share the block of `a`. */
  lemma InBlock(a: int, t: int)
    requires 0 <= t && a % BLOCK_SIZE + t < BLOCK_SIZE
    ensures (a + t) / BLOCK_SIZE == a / BLOCK_SIZE && (a + t) % BLOCK_SIZE == a % BLOCK_SIZE + t
  {
    var q := a / BLOCK_SIZE;
    assert a + t == BLOCK_SIZE * q + (a % BLOCK_SIZE + t);
  }

  function Zeros(n: nat): (z: seq<byte>)
    ensures |z| == n && forall k :: 0 <= k < n ==> z[k] == 0
  {
    seq(n, _ => 0)
  }
}
