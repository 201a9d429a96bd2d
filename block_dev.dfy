/*
 * fs/block_dev.c: `block_read` and `block_write`, the byte-range
 * transfers between a user buffer and a block device.
 *
 * The device is seen through the block store of the file-system tables:
 * byte `a` of device `dev` is byte `a % 1024` of block `(dev, a / 1024)`.
 * `breada` on a block missing from the store fails; `getblk` always
 * succeeds and, for a block missing from the store, hands out a fresh
 * buffer with no other holder.
 */
module BlockDev {
  import opened Layout
  import opened Tables
  import opened Bmap

  /** Block `b` shares a byte with [`lo`, `hi`). */
  predicate Touched(b: int, lo: int, hi: int)
  {
    lo < hi && lo < b * BLOCK_SIZE + BLOCK_SIZE && b * BLOCK_SIZE < hi
  }

  /** Block `b` lies wholly inside [`lo`, `hi`). */
  predicate Covered(b: int, lo: int, hi: int)
  {
    lo <= b * BLOCK_SIZE && b * BLOCK_SIZE + BLOCK_SIZE <= hi
  }

  /** Byte `a` of device `dev` is in a present block and is `x`. */
  ghost predicate Holds(b: map<(int, int), Block>, dev: int, a: int, x: byte)
    requires BlocksOk(b)
  {
    (dev, a / BLOCK_SIZE) in b && b[(dev, a / BLOCK_SIZE)].data[a % BLOCK_SIZE] == x
  }

  /** `s` is what device `dev` holds from byte `pos` on, every block of it present. */
  ghost predicate DevBytes(b: map<(int, int), Block>, dev: int, pos: int, s: seq<byte>)
    requires BlocksOk(b)
  {
    forall j :: 0 <= j < |s| ==> Holds(b, dev, pos + j, s[j])
  }

  /**
   * `b1` is `b0` after `buf[..w]` was written at byte `pos` of `dev`:
   * those bytes read back, the blocks they fall in are dirty and keep
   * their reference counts, no other byte changes, and only blocks the
   * range covers whole may be new (with no holder).
   */
  ghost predicate Wrote(b0: map<(int, int), Block>, b1: map<(int, int), Block>, dev: int, pos: int,
                        buf: seq<byte>, w: nat)
    requires BlocksOk(b0) && w <= |buf|
  {
    BlocksOk(b1) && DevBytes(b1, dev, pos, buf[..w]) &&
    (forall key :: key in b0 ==> key in b1) &&
    (forall key :: key in b1 && key !in b0 ==> key.0 == dev && Covered(key.1, pos, pos + w) && b1[key].count == 0) &&
    (forall key :: key in b0 && !(key.0 == dev && Touched(key.1, pos, pos + w)) ==> b1[key] == b0[key]) &&
    (forall key :: key in b1 && key.0 == dev && Touched(key.1, pos, pos + w) ==>
       b1[key].dirt && (key in b0 ==> b1[key].count == b0[key].count)) &&
    (forall key, o :: key in b0 && 0 <= o < BLOCK_SIZE && !(key.0 == dev && pos <= key.1 * BLOCK_SIZE + o < pos + w) ==>
       b1[key].data[o] == b0[key].data[o])
  }

  /**
   * Copying `d` into block `key` from byte `offset` on: the block is
   * dirtied and keeps its count; a block missing from the store (only a
   * whole-block copy, through `getblk`) becomes `d` with no holder.
   */
  function Stored(b: map<(int, int), Block>, key: (int, int), offset: nat, d: seq<byte>): (b': map<(int, int), Block>)
    requires BlocksOk(b) && offset + |d| <= BLOCK_SIZE && (key in b || |d| == BLOCK_SIZE)
    ensures BlocksOk(b') && b'.Keys == b.Keys + {key}
  {
    if key in b then b[key := Block(Splice(b[key].data, offset, d), true, b[key].count)]
    else b[key := Block(d, true, 0)]
  }

  /** Bytes copied before a step of `block_write` still read back after it. */
  lemma OldBytesKept(b: map<(int, int), Block>, b': map<(int, int), Block>, dev: int, pos: int,
                     s: seq<byte>, offset: int, c: int)
    requires BlocksOk(b) && BlocksOk(b') && DevBytes(b, dev, pos, s)
    requires var cur := pos + |s|; offset == cur % BLOCK_SIZE && (|s| > 0 ==> offset == 0)
    requires var key := (dev, (pos + |s|) / BLOCK_SIZE);
             key in b' && (forall k :: k in b && k != key ==> k in b' && b'[k] == b[k]) &&
             (key in b ==> forall o :: 0 <= o < offset ==> b'[key].data[o] == b[key].data[o])
    ensures DevBytes(b', dev, pos, s)
  {
    var cur := pos + |s|;
    var key := (dev, cur / BLOCK_SIZE);
    assert cur == BLOCK_SIZE * key.1 + offset;
    forall j | 0 <= j < |s|
      ensures Holds(b', dev, pos + j, s[j])
    {
      var a := pos + j;
      assert a == BLOCK_SIZE * (a / BLOCK_SIZE) + a % BLOCK_SIZE;
    }
  }

  /** `DevBytes` of a concatenation is `DevBytes` of both parts, the second from where the first ends. */
  lemma DevBytesAppend(b: map<(int, int), Block>, dev: int, pos: int, s: seq<byte>, t: seq<byte>)
    requires BlocksOk(b) && DevBytes(b, dev, pos, s) && DevBytes(b, dev, pos + |s|, t)
    ensures DevBytes(b, dev, pos, s + t)
  {
    var u := s + t;
    forall j | 0 <= j < |u|
      ensures Holds(b, dev, pos + j, u[j])
    {
      if j < |s| {
        assert u[j] == s[j];
      } else {
        assert u[j] == t[j - |s|];
        assert pos + j == (pos + |s|) + (j - |s|);
      }
    }
  }

  /** The bytes of one block from `cur`, within the block, are what the device holds at `cur`. */
  lemma ChunkBytes(b: map<(int, int), Block>, dev: int, cur: int, d: seq<byte>)
    requires BlocksOk(b) && cur % BLOCK_SIZE + |d| <= BLOCK_SIZE
    requires (dev, cur / BLOCK_SIZE) in b
    requires b[(dev, cur / BLOCK_SIZE)].data[cur % BLOCK_SIZE..cur % BLOCK_SIZE + |d|] == d
    ensures DevBytes(b, dev, cur, d)
  {
    forall j | 0 <= j < |d|
      ensures Holds(b, dev, cur + j, d[j])
    {
      InBlock(cur, j);
    }
  }

  /** The bytes one step of `block_write` copies read back, and so do those copied before. */
  lemma WriteBytes(b: map<(int, int), Block>, dev: int, pos: int, buf: seq<byte>, w: nat, c: nat,
                   block: int, offset: int)
    requires BlocksOk(b) && w + c <= |buf| && 0 < c
    requires DevBytes(b, dev, pos, buf[..w])
    requires pos + w == BLOCK_SIZE * block + offset && 0 <= offset && offset + c <= BLOCK_SIZE
    requires w > 0 ==> offset == 0
    requires (dev, block) in b || c == BLOCK_SIZE
    ensures DevBytes(Stored(b, (dev, block), offset, buf[w..w + c]), dev, pos, buf[..w + c])
  {
    BlockAt(pos + w, block, offset);
    assert buf[..w] + buf[w..w + c] == buf[..w + c];
    StoredBytes(b, dev, pos, buf[..w], buf[w..w + c], (dev, block), offset);
  }

  /** Bytes `s` read back from `pos`, and `d` stored right after them, read back as `s + d`. */
  lemma StoredBytes(b: map<(int, int), Block>, dev: int, pos: int, s: seq<byte>, d: seq<byte>,
                    key: (int, int), offset: int)
    requires BlocksOk(b) && DevBytes(b, dev, pos, s) && 0 < |d|
    requires var cur := pos + |s|;
             key == (dev, cur / BLOCK_SIZE) && offset == cur % BLOCK_SIZE && (|s| > 0 ==> offset == 0)
    requires offset + |d| <= BLOCK_SIZE && (key in b || |d| == BLOCK_SIZE)
    ensures DevBytes(Stored(b, key, offset, d), dev, pos, s + d)
  {
    var b' := Stored(b, key, offset, d);
    OldBytesKept(b, b', dev, pos, s, offset, |d|);
    ChunkBytes(b', dev, pos + |s|, d);
    DevBytesAppend(b', dev, pos, s, d);
  }

  /** One step of `block_write` changes only the bytes it copies, in a block it dirties. */
  lemma WriteFrame(b0: map<(int, int), Block>, b: map<(int, int), Block>, dev: int, pos: int,
                   buf: seq<byte>, w: nat, c: nat, block: int, offset: int)
    requires BlocksOk(b0) && w + c <= |buf| && 0 < c
    requires Wrote(b0, b, dev, pos, buf, w)
    requires pos + w == BLOCK_SIZE * block + offset && 0 <= offset && offset + c <= BLOCK_SIZE
    requires w > 0 ==> offset == 0
    requires (dev, block) in b || c == BLOCK_SIZE
    ensures var b' := Stored(b, (dev, block), offset, buf[w..w + c]);
            (forall key :: key in b0 ==> key in b') &&
            (forall key :: key in b' && key !in b0 ==> key.0 == dev && Covered(key.1, pos, pos + w + c) && b'[key].count == 0) &&
            (forall key :: key in b0 && !(key.0 == dev && Touched(key.1, pos, pos + w + c)) ==> b'[key] == b0[key]) &&
            (forall key :: key in b' && key.0 == dev && Touched(key.1, pos, pos + w + c) ==>
               b'[key].dirt && (key in b0 ==> b'[key].count == b0[key].count))
  {
  }

  /** One step of `block_write` leaves every byte outside the range written so far as it was. */
  lemma WriteKeeps(b0: map<(int, int), Block>, b: map<(int, int), Block>, dev: int, pos: int,
                   buf: seq<byte>, w: nat, c: nat, block: int, offset: int)
    requires BlocksOk(b0) && w + c <= |buf| && 0 < c
    requires Wrote(b0, b, dev, pos, buf, w)
    requires pos + w == BLOCK_SIZE * block + offset && 0 <= offset && offset + c <= BLOCK_SIZE
    requires (dev, block) in b || c == BLOCK_SIZE
    ensures var b' := Stored(b, (dev, block), offset, buf[w..w + c]);
            forall key, o :: key in b0 && 0 <= o < BLOCK_SIZE && !(key.0 == dev && pos <= key.1 * BLOCK_SIZE + o < pos + w + c) ==>
              b'[key].data[o] == b0[key].data[o]
  {
    var b' := Stored(b, (dev, block), offset, buf[w..w + c]);
    forall k, o | k in b0 && 0 <= o < BLOCK_SIZE && !(k.0 == dev && pos <= k.1 * BLOCK_SIZE + o < pos + w + c)
      ensures b'[k].data[o] == b0[k].data[o]
    {
      if k == (dev, block) {
        assert !(offset <= o < offset + c);
      }
    }
  }

  /**
   * One step of `block_write`, copying `c` bytes into block `block` from
   * byte `offset` on, extends what `Wrote` describes by that chunk; the
   * next block is in the new store exactly when it was in `b0`.
   */
  lemma WriteStep(b0: map<(int, int), Block>, b: map<(int, int), Block>, dev: int, pos: int,
                  buf: seq<byte>, w: nat, c: nat, block: int, offset: int)
    requires BlocksOk(b0) && w + c <= |buf| && 0 < c
    requires Wrote(b0, b, dev, pos, buf, w)
    requires pos + w == BLOCK_SIZE * block + offset && 0 <= offset && offset + c <= BLOCK_SIZE
    requires w > 0 ==> offset == 0
    requires (dev, block) in b || c == BLOCK_SIZE
    ensures var b' := Stored(b, (dev, block), offset, buf[w..w + c]);
            Wrote(b0, b', dev, pos, buf, w + c) && ((dev, block + 1) in b' <==> (dev, block + 1) in b0)
  {
    WriteBytes(b, dev, pos, buf, w, c, block, offset);
    WriteFrame(b0, b, dev, pos, buf, w, c, block, offset);
    WriteKeeps(b0, b, dev, pos, buf, w, c, block, offset);
  }

  /**
   * One pass of `block_write`'s loop: the next `c` bytes of `buf` go into
   * block `block` from byte `offset` on, extending what was written.
   */
  method PutChunk(b0: map<(int, int), Block>, b: map<(int, int), Block>, dev: int, pos: int,
                  buf: seq<byte>, w: nat, c: nat, block: int, offset: int) returns (b': map<(int, int), Block>)
    requires BlocksOk(b0) && w + c <= |buf| && 0 < c
    requires Wrote(b0, b, dev, pos, buf, w)
    requires pos + w == BLOCK_SIZE * block + offset && 0 <= offset && offset + c <= BLOCK_SIZE
    requires w > 0 ==> offset == 0
    requires (dev, block) in b || c == BLOCK_SIZE
    ensures Wrote(b0, b', dev, pos, buf, w + c) && ((dev, block + 1) in b' <==> (dev, block + 1) in b0)
  {
    WriteStep(b0, b, dev, pos, buf, w, c, block, offset);
    b' := Stored(b, (dev, block), offset, buf[w..w + c]);
  }

  /**
   * `block_write(dev, pos, buf, count)` on the block store `b0`: the bytes
   * written are `w = pos' - pos`, and the store afterwards is `b1`. A
   * chunk covering a whole block is taken with `getblk` and never fails;
   * a partial one needs the block present, and the transfer stops at the
   * first partial chunk whose block is missing. The result is `w`, or
   * -EIO when the very first chunk failed.
   */
  method WriteBlocks(b0: map<(int, int), Block>, dev: int, pos: int, buf: seq<byte>, count: int)
      returns (r: int, pos': int, b1: map<(int, int), Block>)
    requires BlocksOk(b0) && count <= |buf|
    ensures var w := pos' - pos;
            0 <= w && (count <= 0 ==> w == 0) && (count > 0 ==> w <= count) &&
            Wrote(b0, b1, dev, pos, buf, w) &&
            (0 < count && w < count ==>
               Chunk(pos', count - w) < BLOCK_SIZE && (dev, pos' / BLOCK_SIZE) !in b0 && (w == 0 || pos' % BLOCK_SIZE == 0)) &&
            r == (if w < count && w == 0 then -EIO else w)
  {
    var block, offset := pos / BLOCK_SIZE, pos % BLOCK_SIZE;
    var w: nat := 0;
    b1 := b0;
    while w < count
      invariant w == 0 || w <= count
      invariant w < count ==> pos + w == BLOCK_SIZE * block + offset && 0 <= offset < BLOCK_SIZE
      invariant w < count && w > 0 ==> offset == 0
      invariant w < count ==> ((dev, block) in b1 <==> (dev, block) in b0)
      invariant Wrote(b0, b1, dev, pos, buf, w)
    {
      var chars := BLOCK_SIZE - offset;
      if chars > count - w {
        chars := count - w;
      }
      if chars != BLOCK_SIZE && (dev, block) !in b1 {
        ChunkAt(pos + w, block, offset, count - w);
        return if w != 0 then w else -EIO, pos + w, b1;
      }
      b1 := PutChunk(b0, b1, dev, pos, buf, w, chars, block, offset);
      w, offset, block := w + chars, 0, block + 1;
    }
    r, pos' := w, pos + w;
  }

  /**
   * What `block_read(dev, pos, buf, count)` hands back from store `b`:
   * `out` is what the device holds from `pos` on; it is all `count`
   * bytes unless the block at the stopping point is missing, which
   * happens only at `pos` or on a block boundary; the result is the
   * number of bytes read, or -EIO when none could be.
   */
  ghost predicate ReadOutcome(b: map<(int, int), Block>, dev: int, pos: int, count: int, r: int, out: seq<byte>)
    requires BlocksOk(b)
  {
    (count <= 0 ==> out == []) && (count > 0 ==> |out| <= count) &&
    DevBytes(b, dev, pos, out) &&
    (|out| < count ==> (dev, (pos + |out|) / BLOCK_SIZE) !in b && (|out| == 0 || (pos + |out|) % BLOCK_SIZE == 0)) &&
    r == (if |out| < count && |out| == 0 then -EIO else |out|)
  }

  /** Appending the bytes of one chunk, from the block holding the next position, keeps `DevBytes`. */
  lemma ReadStep(b: map<(int, int), Block>, dev: int, pos: int, out: seq<byte>, piece: seq<byte>)
    requires BlocksOk(b) && DevBytes(b, dev, pos, out)
    requires var cur := pos + |out|;
             (dev, cur / BLOCK_SIZE) in b && cur % BLOCK_SIZE + |piece| <= BLOCK_SIZE &&
             piece == b[(dev, cur / BLOCK_SIZE)].data[cur % BLOCK_SIZE..cur % BLOCK_SIZE + |piece|]
    ensures DevBytes(b, dev, pos, out + piece)
  {
    ChunkBytes(b, dev, pos + |out|, piece);
    DevBytesAppend(b, dev, pos, out, piece);
  }

  /** `block_read`: the bytes read are `ReadOutcome`'s, and `pos` moves past them. */
  method ReadBlocks(b: map<(int, int), Block>, dev: int, pos: nat, count: int)
      returns (r: int, pos': nat, out: seq<byte>)
    requires BlocksOk(b)
    ensures ReadOutcome(b, dev, pos, count, r, out) && pos' == pos + |out|
  {
    var block := pos / BLOCK_SIZE;
    var offset := pos % BLOCK_SIZE;
    var read := 0;
    var left := count;
    pos', out := pos, [];
    while left > 0
      invariant read + left == count && read == |out| && (left >= 0 || read == 0)
      invariant pos' == pos + read
      invariant left > 0 ==> block == pos' / BLOCK_SIZE && offset == pos' % BLOCK_SIZE
      invariant read > 0 && left > 0 ==> offset == 0
      invariant DevBytes(b, dev, pos, out)
    {
      var chars := Chunk(pos', left);
      if (dev, block) !in b {
        return if read != 0 then read else -EIO, pos', out;
      }
      var piece := b[(dev, block)].data[offset..offset + chars];
      ReadStep(b, dev, pos, out, piece);
      out := out + piece;
      pos' := pos' + chars;
      read := read + chars;
      left := left - chars;
      offset := 0;
      block := block + 1;
    }
    r := read;
  }

  /** Every byte `DevBytes` describes is in a present block. */
  lemma DevBytesHas(b: map<(int, int), Block>, dev: int, pos: int, s: seq<byte>, k: int)
    requires BlocksOk(b) && DevBytes(b, dev, pos, s) && 0 <= k < |s|
    ensures (dev, (pos + k) / BLOCK_SIZE) in b
  {
    assert Holds(b, dev, pos + k, s[k]);
  }

  /**
   * Reading back a range just written returns exactly the bytes written:
   * every block of the range is present, so the read never stops early.
   */
  lemma ReadAfterWrite(b0: map<(int, int), Block>, b1: map<(int, int), Block>, dev: int, pos: int,
                       buf: seq<byte>, w: nat, r: int, out: seq<byte>)
    requires BlocksOk(b0) && w <= |buf| && Wrote(b0, b1, dev, pos, buf, w)
    requires ReadOutcome(b1, dev, pos, w, r, out)
    ensures out == buf[..w] && r == w
  {
    var s := buf[..w];
    if |out| < w {
      DevBytesHas(b1, dev, pos, s, |out|);
    }
    forall j | 0 <= j < w
      ensures out[j] == s[j]
    {
    }
  }

  /** `block_write` on the tables: only the block store changes. */
  method BlockWrite(fs: FileSystem, dev: int, pos: int, buf: seq<byte>, count: int) returns (r: int, pos': int)
    requires fs.Valid() && count <= |buf|
    modifies fs
    ensures fs.Valid()
    ensures var w := pos' - pos; 0 <= w <= |buf| && Wrote(old(fs.blocks), fs.blocks, dev, pos, buf, w)
    ensures count <= 0 ==> pos' == pos
    ensures count > 0 ==> pos' - pos <= count
    ensures r == (if pos' - pos < count && pos' == pos then -EIO else pos' - pos)
    ensures fs.inodes == old(fs.inodes) && fs.lastInode == old(fs.lastInode) && fs.supers == old(fs.supers)
    ensures fs.files == old(fs.files) && fs.rootDev == old(fs.rootDev)
  {
    var b1;
    r, pos', b1 := WriteBlocks(fs.blocks, dev, pos, buf, count);
    fs.blocks := b1;
  }
}
