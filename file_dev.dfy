/*
 * fs/file_dev.c: `file_read` and `file_write`, the byte-range transfers
 * between a user buffer and a regular file.
 *
 * Byte `p` of a file is byte `p % 1024` of the zone `bmap` gives its
 * block `p / 1024`; a block with no zone reads as zeros. Block contents
 * come from the block store of the file-system tables, where a missing
 * block is one `bread` cannot read.
 */
module FileDev {
  import opened Layout
  import opened Records
  import opened Tables
  import opened Bmap
  import opened BlockDev

  /** The largest file `_bmap` can map, in bytes; a block past it halts the kernel. */
  const MAX_FILE_SIZE: nat := MAX_FILE_BLOCKS * BLOCK_SIZE

  /** Block `n` of the file can be read: it has no zone, or its zone is in the store. */
  predicate ReadableAt(zone: seq<u16>, blocks: map<(int, int), Block>, dev: int, n: nat)
    requires |zone| == 9 && BlocksOk(blocks) && n < MAX_FILE_BLOCKS
  {
    var z := Lookup(zone, blocks, dev, n);
    z == 0 || (dev, z) in blocks
  }

  /** Byte `p` of the file reads as `x`: zero in a block with no zone, else the byte of its zone. */
  ghost predicate FileHolds(zone: seq<u16>, blocks: map<(int, int), Block>, dev: int, p: nat, x: byte)
    requires |zone| == 9 && BlocksOk(blocks) && p < MAX_FILE_SIZE
  {
    var z := Lookup(zone, blocks, dev, p / BLOCK_SIZE);
    if z == 0 then x == 0 else (dev, z) in blocks && blocks[(dev, z)].data[p % BLOCK_SIZE] == x
  }

  /** `s` is what the file holds from byte `pos` on. */
  ghost predicate FileBytes(zone: seq<u16>, blocks: map<(int, int), Block>, dev: int, pos: nat, s: seq<byte>)
    requires |zone| == 9 && BlocksOk(blocks) && pos + |s| <= MAX_FILE_SIZE
  {
    forall j :: 0 <= j < |s| ==> FileHolds(zone, blocks, dev, pos + j, s[j])
  }

  /**
   * What `file_read(inode, filp, buf, count)` hands back: nothing and 0
   * for `count <= 0`; otherwise `out` is what the file holds from `pos`
   * on, all `count` bytes unless the block at the stopping point cannot
   * be read (which happens only at `pos` or on a block boundary), and the
   * result is the number of bytes read, or -ERROR when none could be.
   */
  ghost predicate FileReadOutcome(zone: seq<u16>, blocks: map<(int, int), Block>, dev: int, pos: nat,
                                  count: int, r: int, out: seq<byte>)
    requires |zone| == 9 && BlocksOk(blocks) && (count > 0 ==> pos + count <= MAX_FILE_SIZE)
  {
    (count <= 0 ==> out == [] && r == 0) &&
    (count > 0 ==>
       |out| <= count && FileBytes(zone, blocks, dev, pos, out) &&
       (|out| < count ==>
          !ReadableAt(zone, blocks, dev, (pos + |out|) / BLOCK_SIZE) && (|out| == 0 || (pos + |out|) % BLOCK_SIZE == 0)) &&
       r == (if |out| == 0 then -ERROR else |out|))
  }

  /** One chunk of `file_read`, taken from the block holding the next position, extends `FileBytes`. */
  lemma ReadChunk(zone: seq<u16>, blocks: map<(int, int), Block>, dev: int, pos: nat, out: seq<byte>, piece: seq<byte>)
    requires |zone| == 9 && BlocksOk(blocks) && pos + |out| + |piece| <= MAX_FILE_SIZE
    requires FileBytes(zone, blocks, dev, pos, out)
    requires 0 < |piece|
    requires var cur := pos + |out|; var z := Lookup(zone, blocks, dev, cur / BLOCK_SIZE);
             cur % BLOCK_SIZE + |piece| <= BLOCK_SIZE &&
             (z == 0 ==> piece == Zeros(|piece|)) &&
             (z != 0 ==> (dev, z) in blocks &&
                         piece == blocks[(dev, z)].data[cur % BLOCK_SIZE..cur % BLOCK_SIZE + |piece|])
    ensures FileBytes(zone, blocks, dev, pos, out + piece)
  {
    var cur, s := pos + |out|, out + piece;
    forall j | 0 <= j < |s|
      ensures FileHolds(zone, blocks, dev, pos + j, s[j])
    {
      if j < |out| {
        assert s[j] == out[j];
      } else {
        InBlock(cur, j - |out|);
        assert s[j] == piece[j - |out|];
      }
    }
  }

  /** `file_read` on a file with zone pointers `zone` on `dev`, from byte `pos`, as `FileReadOutcome` states. */
  method ReadFile(zone: seq<u16>, blocks: map<(int, int), Block>, dev: int, pos: nat, count: int)
      returns (r: int, out: seq<byte>, pos': nat)
    requires |zone| == 9 && BlocksOk(blocks) && (count > 0 ==> pos + count <= MAX_FILE_SIZE)
    ensures FileReadOutcome(zone, blocks, dev, pos, count, r, out) && pos' == pos + |out|
  {
    var left := count;
    pos', out := pos, [];
    if left <= 0 {
      return 0, out, pos';
    }
    while left != 0
      invariant 0 <= left && |out| + left == count && pos' == pos + |out|
      invariant FileBytes(zone, blocks, dev, pos, out)
      invariant left > 0 && |out| > 0 ==> pos' % BLOCK_SIZE == 0
    {
      var nr := Lookup(zone, blocks, dev, pos' / BLOCK_SIZE);
      if nr != 0 && (dev, nr) !in blocks {
        break;
      }
      var off := pos' % BLOCK_SIZE;
      var chars := Chunk(pos', left);
      var piece := if nr != 0 then blocks[(dev, nr)].data[off..off + chars] else Zeros(chars);
      ReadChunk(zone, blocks, dev, pos, out, piece);
      pos' := pos' + chars;
      left := left - chars;
      out := out + piece;
    }
    r := if count - left != 0 then count - left else -ERROR;
  }

  /**
   * `file_read` on inode slot `x` through file slot `f`: the bytes are
   * `FileReadOutcome`'s, `f_pos` moves past them, and `i_atime` becomes
   * `now` unless `count <= 0` returned at once.
   */
  method FileRead(fs: FileSystem, x: nat, f: nat, count: int, now: int) returns (r: int, out: seq<byte>)
    requires fs.Valid() && x < NR_INODE && f < NR_FILE && fs.files[f].pos >= 0
    requires count > 0 ==> fs.files[f].pos + count <= MAX_FILE_SIZE
    modifies fs
    ensures fs.Valid()
    ensures FileReadOutcome(old(fs.inodes[x].d.zone), old(fs.blocks), old(fs.inodes[x].dev), old(fs.files[f].pos), count, r, out)
    ensures fs.files == old(fs.files)[f := old(fs.files[f]).(pos := old(fs.files[f].pos) + |out|)]
    ensures fs.inodes == old(fs.inodes)[x := if count <= 0 then old(fs.inodes[x]) else old(fs.inodes[x]).(atime := now)]
    ensures fs.blocks == old(fs.blocks) && fs.supers == old(fs.supers)
    ensures fs.lastInode == old(fs.lastInode) && fs.rootDev == old(fs.rootDev)
  {
    var i := fs.inodes[x];
    var pos';
    r, out, pos' := ReadFile(i.d.zone, fs.blocks, i.dev, fs.files[f].pos, count);
    fs.files := fs.files[f := fs.files[f].(pos := pos')];
    if count > 0 {
      fs.inodes := fs.inodes[x := i.(atime := now)];
    }
  }

  // ---------------------------------------------------------------------
  // file_write
  // ---------------------------------------------------------------------

  /** The zones of the file blocks that share a byte with [`lo`, `hi`). */
  function Zones(zoneOf: nat -> int, lo: nat, hi: int): (zs: set<int>)
    ensures forall n: nat :: Touched(n, lo, hi) ==> zoneOf(n) in zs
  {
    set n: nat | n < hi && Touched(n, lo, hi) :: zoneOf(n)
  }

  /** `zoneOf` gives different blocks of [`lo`, `hi`) different zones. */
  ghost predicate Distinct(zoneOf: nat -> int, lo: nat, hi: int)
  {
    forall n1: nat, n2: nat {:trigger Apart(zoneOf, n1, n2)} ::
      Touched(n1, lo, hi) && Touched(n2, lo, hi) && n1 < n2 ==> Apart(zoneOf, n1, n2)
  }

  /** File blocks `n1` and `n2` have different zones. */
  ghost predicate Apart(zoneOf: nat -> int, n1: nat, n2: nat)
  {
    zoneOf(n1) != zoneOf(n2)
  }

  /** Byte `o` of zone `z` of `dev` is in the store and is `x`. */
  ghost predicate ZoneHolds(b: map<(int, int), Block>, dev: int, z: int, o: nat, x: byte)
    requires BlocksOk(b) && o < BLOCK_SIZE
  {
    (dev, z) in b && b[(dev, z)].data[o] == x
  }

  /**
   * `b1` is `b0` after `file_write` put `buf[..w]` at file byte `start`,
   * file block `n` going to zone `zoneOf(n)`: no block appears or goes
   * away and none changes its count; every block of the range has a
   * non-zero zone that is present and dirty; only those zones change;
   * and when the zones of the range are distinct, each byte is at its
   * place in its zone.
   */
  ghost predicate FileWrote(b0: map<(int, int), Block>, b1: map<(int, int), Block>, zoneOf: nat -> int, dev: int,
                            start: nat, buf: seq<byte>, w: nat, count: int)
    requires BlocksOk(b0) && w <= |buf|
  {
    Framed(b0, b1, zoneOf, dev, start, start + w) &&
    (Distinct(zoneOf, start, start + count) ==> Placed(b1, zoneOf, dev, start, buf, w))
  }

  /**
   * `b1` is `b0` after writes into the zones of file bytes [`lo`, `hi`):
   * no block appears or goes away and none changes its count; every block
   * of the range has a non-zero zone that is present and dirty; only
   * those zones change.
   */
  ghost predicate Framed(b0: map<(int, int), Block>, b1: map<(int, int), Block>, zoneOf: nat -> int, dev: int,
                         lo: nat, hi: int)
  {
    BlocksOk(b1) && b1.Keys == b0.Keys &&
    (forall key :: key in b0 ==> b1[key].count == b0[key].count) &&
    (forall key :: key in b0 && !(key.0 == dev && key.1 in Zones(zoneOf, lo, hi)) ==> b1[key] == b0[key]) &&
    (forall n: nat :: Touched(n, lo, hi) ==> zoneOf(n) != 0 && (dev, zoneOf(n)) in b1 && b1[(dev, zoneOf(n))].dirt)
  }

  /** Each of the first `w` bytes of `buf` is at its place in the zone of its file block. */
  ghost predicate Placed(b: map<(int, int), Block>, zoneOf: nat -> int, dev: int, start: nat, buf: seq<byte>, w: nat)
    requires BlocksOk(b) && w <= |buf|
  {
    forall j :: 0 <= j < w ==> ZoneHolds(b, dev, zoneOf((start + j) / BLOCK_SIZE), (start + j) % BLOCK_SIZE, buf[j])
  }

  /** A step of `file_write` only grows the range's zones and keeps the blocks dirty. */
  lemma WriteChunkFrame(b0: map<(int, int), Block>, b: map<(int, int), Block>, b': map<(int, int), Block>,
                        zoneOf: nat -> int, dev: int, start: nat, buf: seq<byte>, w: nat, c: nat, count: int)
    requires BlocksOk(b0) && w + c <= |buf| && 0 < c && Framed(b0, b, zoneOf, dev, start, start + w)
    requires var cur := start + w;
             cur % BLOCK_SIZE + c <= BLOCK_SIZE && (w > 0 ==> cur % BLOCK_SIZE == 0) &&
             zoneOf(cur / BLOCK_SIZE) != 0 && (dev, zoneOf(cur / BLOCK_SIZE)) in b &&
             b' == Stored(b, (dev, zoneOf(cur / BLOCK_SIZE)), cur % BLOCK_SIZE, buf[w..w + c])
    ensures Framed(b0, b', zoneOf, dev, start, start + w + c)
  {
    var cur := start + w;
    var cb := cur / BLOCK_SIZE;
    var hi, hi' := start + w, start + w + c;
    var key := (dev, zoneOf(cb));
    TouchedNext(cb, start, w, c);
    ZonesGrow(zoneOf, start, hi, hi');
    forall n: nat | Touched(n, start, hi')
      ensures zoneOf(n) != 0 && (dev, zoneOf(n)) in b' && b'[(dev, zoneOf(n))].dirt
    {
      TouchedSplit(n, start, w, c);
    }
    forall k | k in b0 && !(k.0 == dev && k.1 in Zones(zoneOf, start, hi'))
      ensures b'[k] == b0[k]
    {
      assert k != key;
    }
  }

  /** Widening the range keeps every zone of the narrower one. */
  lemma ZonesGrow(zoneOf: nat -> int, lo: nat, hi: int, hi': int)
    requires hi <= hi'
    ensures Zones(zoneOf, lo, hi) <= Zones(zoneOf, lo, hi')
  {
    forall z | z in Zones(zoneOf, lo, hi)
      ensures z in Zones(zoneOf, lo, hi')
    {
      var n: nat :| n < hi && Touched(n, lo, hi) && zoneOf(n) == z;
      assert Touched(n, lo, hi');
    }
  }

  /** The block of the chunk at `start + w` shares a byte with the range that ends after the chunk. */
  lemma TouchedNext(cb: int, start: nat, w: nat, c: nat)
    requires 0 < c && cb == (start + w) / BLOCK_SIZE
    ensures Touched(cb, start, start + w + c)
  {
    var cur := start + w;
    assert cur == BLOCK_SIZE * cb + cur % BLOCK_SIZE;
  }

  /**
   * A block that shares a byte with the range after a chunk either shares
   * one with the range before it, or is the chunk's block.
   */
  lemma TouchedSplit(n: int, start: nat, w: nat, c: nat)
    requires 0 < c && (start + w) % BLOCK_SIZE + c <= BLOCK_SIZE && (w > 0 ==> (start + w) % BLOCK_SIZE == 0)
    requires Touched(n, start, start + w + c)
    ensures Touched(n, start, start + w) || n == (start + w) / BLOCK_SIZE
  {
    var cur := start + w;
    var cb := cur / BLOCK_SIZE;
    assert cur == BLOCK_SIZE * cb + cur % BLOCK_SIZE;
    if !Touched(n, start, start + w) {
      if w == 0 {
        assert n * BLOCK_SIZE < cur + c <= cb * BLOCK_SIZE + BLOCK_SIZE;
        assert cb * BLOCK_SIZE <= cur < n * BLOCK_SIZE + BLOCK_SIZE;
      } else {
        assert cur <= n * BLOCK_SIZE;
        assert n * BLOCK_SIZE < cur + c <= cb * BLOCK_SIZE + BLOCK_SIZE;
      }
    }
  }

  /** A step of `file_write` puts its chunk in place and, with distinct zones, disturbs no earlier byte. */
  lemma WriteChunkBytes(b: map<(int, int), Block>, b': map<(int, int), Block>, zoneOf: nat -> int, dev: int,
                        start: nat, buf: seq<byte>, w: nat, c: nat, count: int)
    requires BlocksOk(b) && w + c <= |buf| && 0 < c && w + c <= count
    requires Distinct(zoneOf, start, start + count) && Placed(b, zoneOf, dev, start, buf, w)
    requires var cur := start + w;
             cur % BLOCK_SIZE + c <= BLOCK_SIZE && (w > 0 ==> cur % BLOCK_SIZE == 0) &&
             (dev, zoneOf(cur / BLOCK_SIZE)) in b &&
             b' == Stored(b, (dev, zoneOf(cur / BLOCK_SIZE)), cur % BLOCK_SIZE, buf[w..w + c])
    ensures BlocksOk(b') && Placed(b', zoneOf, dev, start, buf, w + c)
  {
    forall j | 0 <= j < w + c
      ensures ZoneHolds(b', dev, zoneOf((start + j) / BLOCK_SIZE), (start + j) % BLOCK_SIZE, buf[j])
    {
      if j < w {
        EarlierByteKept(b, b', zoneOf, dev, start, buf, w, c, count, j);
      } else {
        ChunkBytePlaced(b, b', zoneOf, dev, start, buf, w, c, j);
      }
    }
  }

  /** A byte written before the chunk is in an earlier block, whose zone the chunk does not touch. */
  lemma EarlierByteKept(b: map<(int, int), Block>, b': map<(int, int), Block>, zoneOf: nat -> int, dev: int,
                        start: nat, buf: seq<byte>, w: nat, c: nat, count: int, j: nat)
    requires BlocksOk(b) && w + c <= |buf| && 0 < c && w + c <= count && j < w
    requires Distinct(zoneOf, start, start + count)
    requires ZoneHolds(b, dev, zoneOf((start + j) / BLOCK_SIZE), (start + j) % BLOCK_SIZE, buf[j])
    requires var cur := start + w;
             cur % BLOCK_SIZE + c <= BLOCK_SIZE && cur % BLOCK_SIZE == 0 &&
             (dev, zoneOf(cur / BLOCK_SIZE)) in b &&
             b' == Stored(b, (dev, zoneOf(cur / BLOCK_SIZE)), cur % BLOCK_SIZE, buf[w..w + c])
    ensures ZoneHolds(b', dev, zoneOf((start + j) / BLOCK_SIZE), (start + j) % BLOCK_SIZE, buf[j])
  {
    var a, cur := start + j, start + w;
    BlockBefore(a, cur);
    TouchedAt(a, start, start + count);
    TouchedAt(cur, start, start + count);
    assert Apart(zoneOf, a / BLOCK_SIZE, cur / BLOCK_SIZE);
  }

  /** A byte of the chunk lands at its offset in the chunk's block. */
  lemma ChunkBytePlaced(b: map<(int, int), Block>, b': map<(int, int), Block>, zoneOf: nat -> int, dev: int,
                        start: nat, buf: seq<byte>, w: nat, c: nat, j: nat)
    requires BlocksOk(b) && w + c <= |buf| && w <= j < w + c
    requires var cur := start + w;
             cur % BLOCK_SIZE + c <= BLOCK_SIZE &&
             (dev, zoneOf(cur / BLOCK_SIZE)) in b &&
             b' == Stored(b, (dev, zoneOf(cur / BLOCK_SIZE)), cur % BLOCK_SIZE, buf[w..w + c])
    ensures ZoneHolds(b', dev, zoneOf((start + j) / BLOCK_SIZE), (start + j) % BLOCK_SIZE, buf[j])
  {
    var cur := start + w;
    var off := cur % BLOCK_SIZE;
    var key := (dev, zoneOf(cur / BLOCK_SIZE));
    var d := buf[w..w + c];
    InBlock(cur, j - w);
    assert start + j == cur + (j - w);
    assert b'[key].data[off..off + c] == d;
    assert b'[key].data[off + (j - w)] == d[j - w];
  }

  /**
   * `file_write` from file byte `start` of a file of `size` bytes, with
   * `create_block` giving file block `n` the zone `zoneOf(n)`: `w = pos -
   * start` bytes are written as `FileWrote` states; the transfer stops
   * early only where `create_block` gives 0 or the zone cannot be read,
   * at `start` or on a block boundary; the size becomes the final
   * position when that is past it; the result is `w`, or -1 when nothing
   * was written (`count <= 0` included).
   */
  method WriteFile(zoneOf: nat -> int, b0: map<(int, int), Block>, dev: int, start: nat, size: int,
                   buf: seq<byte>, count: int)
      returns (r: int, pos: nat, size': int, b1: map<(int, int), Block>)
    requires BlocksOk(b0) && count <= |buf|
    ensures var w := pos - start;
            0 <= w && (count <= 0 ==> w == 0) && (count > 0 ==> w <= count) &&
            FileWrote(b0, b1, zoneOf, dev, start, buf, w, count) &&
            (w < count ==> (zoneOf(pos / BLOCK_SIZE) == 0 || (dev, zoneOf(pos / BLOCK_SIZE)) !in b0) &&
                           (w == 0 || pos % BLOCK_SIZE == 0)) &&
            size' == (if w > 0 && pos > size then pos else size) &&
            r == (if w > 0 then w else -1)
  {
    pos, size', b1 := start, size, b0;
    var i := 0;
    WroteNothing(b0, zoneOf, dev, start, buf, count);
    while i < count
      invariant 0 <= i && (count > 0 ==> i <= count) && (count <= 0 ==> i == 0) && pos == start + i
      invariant FileWrote(b0, b1, zoneOf, dev, start, buf, i, count) && b1.Keys == b0.Keys
      invariant i < count && i > 0 ==> pos % BLOCK_SIZE == 0
      invariant size' == (if i > 0 && pos > size then pos else size)
    {
      var block := zoneOf(pos / BLOCK_SIZE);
      if block == 0 || (dev, block) !in b1 {
        break;
      }
      var c;
      c, b1 := WriteChunk(b0, b1, zoneOf, dev, start, buf, i, count, pos);
      pos := pos + c;
      if pos > size' {
        size' := pos;
      }
      i := i + c;
    }
    r := if i != 0 then i else -1;
  }

  /** Before the first chunk nothing is written. */
  lemma WroteNothing(b0: map<(int, int), Block>, zoneOf: nat -> int, dev: int, start: nat, buf: seq<byte>, count: int)
    requires BlocksOk(b0)
    ensures FileWrote(b0, b0, zoneOf, dev, start, buf, 0, count)
  {
  }

  /**
   * A whole step of `file_write`: the store after the chunk is still as `FileWrote` states, `c` bytes further on, and
   * a chunk that does not finish the transfer ends on a block boundary.
   */
  lemma WriteStep(b0: map<(int, int), Block>, b: map<(int, int), Block>, b': map<(int, int), Block>, zoneOf: nat -> int,
                  dev: int, start: nat, buf: seq<byte>, w: nat, c: nat, count: int)
    requires BlocksOk(b0) && w + c <= |buf| && 0 < c && w + c <= count && FileWrote(b0, b, zoneOf, dev, start, buf, w, count)
    requires var cur := start + w;
             cur % BLOCK_SIZE + c <= BLOCK_SIZE && (w > 0 ==> cur % BLOCK_SIZE == 0) &&
             zoneOf(cur / BLOCK_SIZE) != 0 && (dev, zoneOf(cur / BLOCK_SIZE)) in b &&
             b' == Stored(b, (dev, zoneOf(cur / BLOCK_SIZE)), cur % BLOCK_SIZE, buf[w..w + c])
    requires c == Chunk(start + w, count - w)
    ensures FileWrote(b0, b', zoneOf, dev, start, buf, w + c, count)
    ensures w + c < count ==> (start + w + c) % BLOCK_SIZE == 0
  {
    WriteChunkFrame(b0, b, b', zoneOf, dev, start, buf, w, c, count);
    if Distinct(zoneOf, start, start + count) {
      WriteChunkBytes(b, b', zoneOf, dev, start, buf, w, c, count);
    }
  }

  /** One pass of `file_write`'s loop: copy the next chunk into its zone, which is present and non-zero. */
  method WriteChunk(b0: map<(int, int), Block>, b: map<(int, int), Block>, zoneOf: nat -> int, dev: int,
                    start: nat, buf: seq<byte>, w: nat, count: int, pos: nat)
      returns (c: nat, b': map<(int, int), Block>)
    requires BlocksOk(b0) && w < count <= |buf| && FileWrote(b0, b, zoneOf, dev, start, buf, w, count)
    requires pos == start + w && (w > 0 ==> pos % BLOCK_SIZE == 0)
    requires zoneOf(pos / BLOCK_SIZE) != 0 && (dev, zoneOf(pos / BLOCK_SIZE)) in b
    ensures 0 < c <= count - w && FileWrote(b0, b', zoneOf, dev, start, buf, w + c, count) && b'.Keys == b0.Keys
    ensures w + c < count ==> (pos + c) % BLOCK_SIZE == 0
  {
    c := Chunk(pos, count - w);
    b' := Stored(b, (dev, zoneOf(pos / BLOCK_SIZE)), pos % BLOCK_SIZE, buf[w..w + c]);
    WriteStep(b0, b, b', zoneOf, dev, start, buf, w, c, count);
  }

  /** A byte before a block boundary lies in an earlier block. */
  lemma BlockBefore(a: nat, cur: nat)
    requires a < cur && cur % BLOCK_SIZE == 0
    ensures a / BLOCK_SIZE < cur / BLOCK_SIZE
  {
    assert a == BLOCK_SIZE * (a / BLOCK_SIZE) + a % BLOCK_SIZE;
    assert cur == BLOCK_SIZE * (cur / BLOCK_SIZE);
  }

  /** The block of byte `a` of [`lo`, `hi`) shares a byte with the range. */
  lemma TouchedAt(a: int, lo: int, hi: int)
    requires lo <= a
    ensures a < hi ==> Touched(a / BLOCK_SIZE, lo, hi)
  {
    assert a == BLOCK_SIZE * (a / BLOCK_SIZE) + a % BLOCK_SIZE;
  }

  /**
   * Reading back what `file_write` wrote returns it, once `bmap` finds
   * the zones `create_block` gave and those zones are distinct.
   */
  lemma WriteThenRead(zone: seq<u16>, b0: map<(int, int), Block>, b1: map<(int, int), Block>, zoneOf: nat -> int,
                      dev: int, start: nat, buf: seq<byte>, w: nat, count: int, r: int, out: seq<byte>)
    requires |zone| == 9 && BlocksOk(b0) && 0 < w <= count <= |buf| && start + count <= MAX_FILE_SIZE
    requires FileWrote(b0, b1, zoneOf, dev, start, buf, w, count) && Distinct(zoneOf, start, start + count)
    requires forall n: nat :: Touched(n, start, start + w) ==> Lookup(zone, b1, dev, n) == zoneOf(n)
    requires FileReadOutcome(zone, b1, dev, start, w, r, out)
    ensures out == buf[..w] && r == w
  {
    TouchedAt(start + |out|, start, start + w);
    assert |out| == w;
    var s := buf[..w];
    forall j | 0 <= j < w
      ensures out[j] == s[j]
    {
      TouchedAt(start + j, start, start + w);
      assert FileHolds(zone, b1, dev, start + j, out[j]);
      assert ZoneHolds(b1, dev, zoneOf((start + j) / BLOCK_SIZE), (start + j) % BLOCK_SIZE, buf[j]);
    }
  }

  /** The position `file_write` starts at: the end of the file under O_APPEND, else `f_pos`. */
  function WriteStart(i: MInode, f: File): (start: int)
    ensures HasFlag(f.flags, O_APPEND) ==> start == i.d.size
    ensures !HasFlag(f.flags, O_APPEND) ==> start == f.pos
  {
    if HasFlag(f.flags, O_APPEND) then i.d.size else f.pos
  }

  /**
   * Inode `i` after `file_write` put `w` bytes at `start`: `i_size` grows
   * to the final position when that is past it, and only then are
   * `i_ctime` set and the inode dirtied; `i_mtime` is always `now`.
   */
  function Wrote(i: MInode, start: nat, w: nat, now: u32): (i': MInode)
    requires i.Valid() && (w > 0 ==> start + w <= MAX_FILE_SIZE)
    ensures i'.Valid() && i'.dev == i.dev && i'.num == i.num && i'.count == i.count && i'.d.mtime == now
    ensures i'.d.size == (if w > 0 && start + w > i.d.size then start + w else i.d.size)
    ensures i'.d.size != i.d.size ==> i'.ctime == now && i'.dirt
    ensures i'.d.size == i.d.size ==> i'.ctime == i.ctime && i'.dirt == i.dirt
    ensures i'.d.zone == i.d.zone && i'.d.mode == i.d.mode && i'.d.nlinks == i.d.nlinks
  {
    var grown := w > 0 && start + w > i.d.size;
    i.(d := i.d.(size := if grown then start + w else i.d.size, mtime := now),
       ctime := if grown then now else i.ctime, dirt := i.dirt || grown)
  }

  /**
   * `file_write` on inode slot `x` through file slot `f`, with
   * `create_block` giving file block `n` the zone `zoneOf(n)`. With `w`
   * the bytes written (the result when positive, else 0): the store is
   * as `FileWrote` states from `WriteStart`; `i_size` grows to the final
   * position when that is past it, and only then are `i_ctime` set and
   * the inode dirtied; `i_mtime` is always `now`; `f_pos` moves to the
   * final position unless the file is in append mode.
   */
  method FileWrite(fs: FileSystem, x: nat, f: nat, buf: seq<byte>, count: int, now: u32, zoneOf: nat -> int)
      returns (r: int)
    requires fs.Valid() && x < NR_INODE && f < NR_FILE && count <= |buf| && fs.inodes[x].dev != 0
    requires WriteStart(fs.inodes[x], fs.files[f]) >= 0
    requires count > 0 ==> WriteStart(fs.inodes[x], fs.files[f]) + count <= MAX_FILE_SIZE
    modifies fs
    ensures fs.Valid() && (r > 0 || r == -1) && (r > 0 ==> r <= count)
    ensures var i, start, w := old(fs.inodes[x]), WriteStart(old(fs.inodes[x]), old(fs.files[f])), if r > 0 then r else 0;
            start >= 0 &&
            FileWrote(old(fs.blocks), fs.blocks, zoneOf, i.dev, start, buf, w, count) &&
            fs.inodes == old(fs.inodes)[x := Wrote(i, start, w, now)] &&
            fs.files == old(fs.files)[f := if HasFlag(old(fs.files[f]).flags, O_APPEND) then old(fs.files[f])
                                           else old(fs.files[f]).(pos := start + w)]
    ensures fs.supers == old(fs.supers) && fs.lastInode == old(fs.lastInode) && fs.rootDev == old(fs.rootDev)
  {
    var i := fs.inodes[x];
    var start := WriteStart(i, fs.files[f]);
    var pos, size', b1;
    r, pos, size', b1 := WriteFile(zoneOf, fs.blocks, i.dev, start, i.d.size, buf, count);
    var i' := Wrote(i, start, pos - start, now);
    assert i'.d.size == size';
    fs.blocks := b1;
    fs.inodes := fs.inodes[x := i'];
    if !HasFlag(fs.files[f].flags, O_APPEND) {
      fs.files := fs.files[f := fs.files[f].(pos := pos)];
    }
  }
}
