/*
 * The superblock table of fs/super.c: `get_free_super`, `read_super`
 * with its rollback when block 1 is unreadable, the magic number is
 * wrong or a bitmap block cannot be read, `put_super`, and `mount_root`.
 *
 * A mounted superblock pins its bitmap buffers: blocks 2 onwards of the
 * device keep one reference each while it is loaded, and the record
 * holds their contents.
 */
module Supers {
  import opened Layout
  import opened Bits
  import opened Records
  import opened Tables
  import opened Alloc
  import opened Iref

  // ---------------------------------------------------------------------
  // get_free_super
  // ---------------------------------------------------------------------

  /** `get_free_super`: the first slot whose `s_dev` is 0, or NONE. */
  method GetFreeSuper(fs: FileSystem) returns (r: int)
    requires fs.Valid()
    ensures r == SuperFrom(fs.supers, 0, 0)
    ensures r == NONE <==> forall m :: 0 <= m < NR_SUPER ==> fs.supers[m].dev != 0
    ensures r != NONE ==> fs.supers[r].dev == 0 && forall m :: 0 <= m < r ==> fs.supers[m].dev != 0
  {
    var k := 0;
    while k < NR_SUPER
      invariant 0 <= k <= NR_SUPER
      invariant SuperFrom(fs.supers, 0, k) == SuperFrom(fs.supers, 0, 0)
    {
      if fs.supers[k].dev == 0 {
        return k;
      }
      k := k + 1;
    }
    return NONE;
  }

  // ---------------------------------------------------------------------
  // The bitmap blocks and their references
  // ---------------------------------------------------------------------

  /** The number of bitmap blocks the disk superblock `d` names. */
  function MapCount(d: DSuper): (r: nat)
  {
    d.imapBlocks + d.zmapBlocks
  }

  /** Block `key` is one of the `n` bitmap blocks of `dev`, which start at block 2. */
  predicate IsMapBlock(key: (int, int), dev: int, n: nat)
  {
    key.0 == dev && 2 <= key.1 < 2 + n
  }

  /** `blocks` after each of the `n` bitmap blocks of `dev` gained one reference. */
  function Pinned(blocks: map<(int, int), Block>, dev: int, n: nat): (r: map<(int, int), Block>)
    ensures r.Keys == blocks.Keys
  {
    map key | key in blocks :: if IsMapBlock(key, dev, n) then blocks[key].(count := blocks[key].count + 1) else blocks[key]
  }

  /** Every bitmap block of `dev` is cached and held, so `brelse` on it is not fatal. */
  ghost predicate PinsHeld(blocks: map<(int, int), Block>, dev: int, n: nat)
  {
    forall key :: IsMapBlock(key, dev, n) ==> key in blocks && blocks[key].count >= 1
  }

  /** `blocks` after each of the `n` bitmap blocks of `dev` lost one reference. */
  function Unpinned(blocks: map<(int, int), Block>, dev: int, n: nat): (r: map<(int, int), Block>)
    requires PinsHeld(blocks, dev, n)
    ensures r.Keys == blocks.Keys
  {
    map key | key in blocks :: if IsMapBlock(key, dev, n) then blocks[key].(count := blocks[key].count - 1) else blocks[key]
  }

  /**
   * `blocks` with the bitmap buffers of `s` holding what the record holds:
   * `s_imap[j]` is the buffer of block `2 + j` and `s_zmap[j]` that of
   * block `2 + s_imap_blocks + j`, so the bits `new_block`, `free_block`,
   * `new_inode` and `free_inode` set and clear, and the `b_dirt` they
   * raise, are those buffers' own.
   */
  function Flushed(blocks: map<(int, int), Block>, s: Super): (r: map<(int, int), Block>)
    requires s.Valid()
    ensures r.Keys == blocks.Keys
    ensures forall key :: key in blocks ==> r[key].count == blocks[key].count
    ensures forall key :: key in blocks && !IsMapBlock(key, s.dev, MapCount(s.d)) ==> r[key] == blocks[key]
    ensures (forall key :: key in blocks ==> |blocks[key].data| == BLOCK_SIZE) ==>
            forall key :: key in r ==> |r[key].data| == BLOCK_SIZE
  {
    map key | key in blocks ::
      var j := key.1 - 2;
      var b := blocks[key];
      if key.0 != s.dev || j < 0 then b
      else if j < s.d.imapBlocks then
        (if j < |s.inodeMap| then Block(s.inodeMap[j], b.dirt || s.inodeMapDirt[j], b.count) else b)
      else if j - s.d.imapBlocks < s.d.zmapBlocks && j - s.d.imapBlocks < |s.zoneMap| then
        Block(s.zoneMap[j - s.d.imapBlocks], b.dirt || s.zoneMapDirt[j - s.d.imapBlocks], b.count)
      else b
  }

  /** Pinning the bitmap blocks holds them, and releasing them afterwards gives back the blocks as they were. */
  lemma PinRoundTrip(blocks: map<(int, int), Block>, dev: int, n: nat)
    requires forall j :: 2 <= j < 2 + n ==> (dev, j) in blocks
    ensures PinsHeld(Pinned(blocks, dev, n), dev, n)
    ensures Unpinned(Pinned(blocks, dev, n), dev, n) == blocks
  {
    var p := Pinned(blocks, dev, n);
    assert PinsHeld(p, dev, n) by {
      forall key | IsMapBlock(key, dev, n)
        ensures key in p && p[key].count >= 1
      {
        assert key == (dev, key.1);
      }
    }
    var u := Unpinned(p, dev, n);
    assert forall key :: key in u ==> u[key] == blocks[key];
  }

  /** Only reference counts change: the data and dirty bits of every block stay. */
  lemma PinnedKeepsData(blocks: map<(int, int), Block>, dev: int, n: nat, key: (int, int))
    requires key in blocks
    ensures Pinned(blocks, dev, n)[key].data == blocks[key].data
    ensures Pinned(blocks, dev, n)[key].dirt == blocks[key].dirt
    ensures Pinned(blocks, dev, n)[key].count == blocks[key].count + (if IsMapBlock(key, dev, n) then 1 else 0)
  {
  }

  // ---------------------------------------------------------------------
  // read_super
  // ---------------------------------------------------------------------

  /** Block `b` of `dev` can be read and holds `data`. */
  predicate ReadsAs(blocks: map<(int, int), Block>, dev: int, b: int, data: seq<byte>)
  {
    (dev, b) in blocks && blocks[(dev, b)].data == data
  }

  /**
   * One bitmap loop of `read_super`: `bread` blocks `first`, `first+1`,
   * … of `dev`, at most `n` of them, stopping at the first that cannot
   * be read.
   */
  method ReadMaps(blocks: map<(int, int), Block>, dev: int, first: int, n: nat) returns (maps: seq<seq<byte>>)
    ensures |maps| <= n
    ensures forall j :: 0 <= j < |maps| ==> ReadsAs(blocks, dev, first + j, maps[j])
    ensures |maps| < n ==> (dev, first + |maps|) !in blocks
  {
    maps := [];
    var i := 0;
    while i < n
      invariant i == |maps| <= n
      invariant forall j :: 0 <= j < i ==> ReadsAs(blocks, dev, first + j, maps[j])
    {
      if (dev, first + i) !in blocks {
        return;
      }
      maps := maps + [blocks[(dev, first + i)].data];
      i := i + 1;
    }
  }

  /**
   * `read_super` can load `dev`: block 1 is readable and holds the magic
   * number 0x137F, and every bitmap block it names is readable.
   */
  ghost predicate Loadable(blocks: map<(int, int), Block>, dev: int)
  {
    dev != 0 && (dev, 1) in blocks && |blocks[(dev, 1)].data| >= D_SUPER_SIZE &&
    var d := DecodeDSuper(blocks[(dev, 1)].data);
    d.magic == SUPER_MAGIC && forall j :: 2 <= j < 2 + MapCount(d) ==> (dev, j) in blocks
  }

  /** The contents of `n` bitmap blocks of `dev` from block `first` on. */
  function MapData(blocks: map<(int, int), Block>, dev: int, first: int, n: nat): (r: seq<seq<byte>>)
    requires forall j :: first <= j < first + n ==> (dev, j) in blocks
    ensures |r| == n
  {
    seq(n, j requires 0 <= j < n => blocks[(dev, first + j)].data)
  }

  /** The dirty bits of `n` bitmap blocks of `dev` from block `first` on. */
  function MapDirt(blocks: map<(int, int), Block>, dev: int, first: int, n: nat): (r: seq<bool>)
    requires forall j :: first <= j < first + n ==> (dev, j) in blocks
    ensures |r| == n
  {
    seq(n, j requires 0 <= j < n => blocks[(dev, first + j)].dirt)
  }

  /** The bitmap with bit 0 of its first block set, so inode 0 and zone bit 0 are never handed out. */
  function MarkZero(maps: seq<seq<byte>>): (r: seq<seq<byte>>)
    requires |maps| > 0 ==> |maps[0]| == BLOCK_SIZE
    ensures |r| == |maps| && forall k :: 1 <= k < |maps| ==> r[k] == maps[k]
    ensures |maps| > 0 ==> |r[0]| == BLOCK_SIZE && Bit(r[0], 0) &&
                           forall b :: 1 <= b < 8 * BLOCK_SIZE ==> Bit(r[0], b) == Bit(maps[0], b)
  {
    if |maps| == 0 then maps else maps[0 := SetBit(maps[0], 0).1]
  }

  /** The superblock `read_super` builds for a loadable `dev`: not yet mounted, clean, writable. */
  function Loaded(blocks: map<(int, int), Block>, dev: int): (s: Super)
    requires Loadable(blocks, dev)
    requires forall key :: key in blocks ==> |blocks[key].data| == BLOCK_SIZE
  {
    var d := DecodeDSuper(blocks[(dev, 1)].data);
    Super(d, MarkZero(MapData(blocks, dev, 2, d.imapBlocks)),
          MarkZero(MapData(blocks, dev, 2 + d.imapBlocks, d.zmapBlocks)),
          MapDirt(blocks, dev, 2, d.imapBlocks), MapDirt(blocks, dev, 2 + d.imapBlocks, d.zmapBlocks),
          dev, NONE, NONE, 0, false, false)
  }

  /**
   * A loaded superblock is well formed, belongs to `dev`, is neither
   * mounted nor the root of a mount, and has bit 0 of both bitmaps set.
   */
  lemma LoadedSane(blocks: map<(int, int), Block>, dev: int)
    requires Loadable(blocks, dev)
    requires forall key :: key in blocks ==> |blocks[key].data| == BLOCK_SIZE
    ensures var s := Loaded(blocks, dev);
            s.Valid() && s.dev == dev && s.isup == NONE && s.imount == NONE &&
            s.d == DecodeDSuper(blocks[(dev, 1)].data) &&
            |s.inodeMap| == s.d.imapBlocks && |s.zoneMap| == s.d.zmapBlocks &&
            (|s.inodeMap| > 0 ==> Bit(s.inodeMap[0], 0)) && (|s.zoneMap| > 0 ==> Bit(s.zoneMap[0], 0))
  {
  }

  /** Filling the free slot `k` with a superblock of `dev`, which no slot held, makes `get_super(dev)` find `k`. */
  lemma FillFreeSlot(supers: seq<Super>, k: nat, s: Super, d: int)
    requires k < |supers| && supers[k].dev == 0 && k == SuperFrom(supers, 0, 0)
    requires s.dev != 0 && SuperOf(supers, s.dev) == NONE
    ensures SuperOf(supers[k := s], s.dev) == k
    ensures d != s.dev ==> SuperOf(supers[k := s], d) == SuperOf(supers, d)
  {
    var t := supers[k := s];
    var r := SuperOf(t, s.dev);
    assert t[k].dev == s.dev;
    assert r != NONE && r <= k;
    if d != s.dev && d != 0 {
      var a, b := SuperOf(t, d), SuperOf(supers, d);
      assert a != NONE ==> t[a] == supers[a];
      assert b != NONE ==> t[b] == supers[b];
    }
  }

  /** Every slot is as it was, except free slots, which may now hold `dev` or stay free. */
  ghost predicate SlotsKeptBut(s0: seq<Super>, s1: seq<Super>, dev: int)
  {
    |s1| == |s0| &&
    forall k :: 0 <= k < |s0| ==> s1[k] == s0[k] || (s0[k].dev == 0 && (s1[k].dev == 0 || s1[k].dev == dev))
  }

  /** Every cached block of a device other than `dev` is as it was, and no block comes or goes. */
  ghost predicate BlocksKeptBut(b0: map<(int, int), Block>, b1: map<(int, int), Block>, dev: int)
  {
    b1.Keys == b0.Keys && forall key :: key in b0 && key.0 != dev ==> b1[key] == b0[key]
  }

  /** `get_super` finds every other device where it was, holding what it held. */
  lemma SuperOfOthers(s0: seq<Super>, s1: seq<Super>, dev: int, d: int)
    requires SlotsKeptBut(s0, s1, dev) && d != dev && d != 0
    ensures SuperOf(s1, d) == SuperOf(s0, d)
    ensures SuperOf(s0, d) != NONE ==> s1[SuperOf(s0, d)] == s0[SuperOf(s0, d)]
  {
    assert forall k :: 0 <= k < |s0| ==> (s1[k].dev == d <==> s0[k].dev == d);
    var a, b := SuperOf(s1, d), SuperOf(s0, d);
    if a != NONE && b != NONE {
      assert !(a < b) && !(b < a);
    }
  }

  /**
   * `read_super(dev)`. Device 0 gives NONE; a superblock already loaded
   * is returned as it is. Otherwise the first free slot is filled from
   * block 1 and the bitmap blocks that follow; an unreadable block 1, a
   * wrong magic number or a short bitmap read frees the slot again and
   * releases what was read. With every slot in use the source writes
   * through a null pointer; here the result is NONE and nothing changes.
   */
  method ReadSuper(fs: FileSystem, dev: int) returns (r: int)
    requires fs.Valid()
    modifies fs
    ensures fs.Valid()
    ensures SlotsKeptBut(old(fs.supers), fs.supers, dev) && BlocksKeptBut(old(fs.blocks), fs.blocks, dev)
    ensures fs.inodes == old(fs.inodes) && fs.lastInode == old(fs.lastInode)
    ensures fs.files == old(fs.files) && fs.rootDev == old(fs.rootDev)
    ensures r == NONE || 0 <= r < NR_SUPER
    ensures dev == 0 || old(SuperOf(fs.supers, dev)) != NONE || old(SuperFrom(fs.supers, 0, 0)) == NONE ==>
              r == old(SuperOf(fs.supers, dev)) && fs.supers == old(fs.supers) && fs.blocks == old(fs.blocks)
    ensures dev != 0 && old(SuperOf(fs.supers, dev)) == NONE && old(SuperFrom(fs.supers, 0, 0)) != NONE ==>
              var k := old(SuperFrom(fs.supers, 0, 0));
              (r != NONE <==> old(Loadable(fs.blocks, dev))) &&
              (r != NONE ==> r == k && fs.supers == old(fs.supers[k := Loaded(fs.blocks, dev)]) &&
                             fs.blocks == old(Pinned(fs.blocks, dev, MapCount(Loaded(fs.blocks, dev).d)))) &&
              (r == NONE ==> fs.blocks == old(fs.blocks) && fs.supers == old(fs.supers)[k := fs.supers[k]] &&
                             fs.supers[k].dev == 0)
  {
    if dev == 0 {
      return NONE;
    }
    r := fs.GetSuper(dev);
    if r != NONE {
      return;
    }
    r := GetFreeSuper(fs);
    if r == NONE {
      return;
    }
    r := Fill(fs, r, dev);
  }

  /**
   * The slot `read_super`, as written, fills once `get_super(dev)` has
   * missed: whatever `get_free_super` returned, NONE (the null pointer)
   * included, since the result is not checked before `s->s_dev = dev`.
   */
  function TakenSlotAsWritten(supers: seq<Super>, dev: int): (r: int)
    requires dev != 0 && SuperOf(supers, dev) == NONE
    ensures r == NONE <==> forall k :: 0 <= k < |supers| ==> supers[k].dev != 0
    ensures r != NONE ==> 0 <= r < |supers| && supers[r].dev == 0
  {
    SuperFrom(supers, 0, 0)
  }

  /** With eight other devices loaded, `read_super` of a ninth stores through the null pointer. */
  lemma FullTableWritesThroughNull()
    ensures var full := seq(NR_SUPER, k => FREE_SUPER.(dev := k + 1));
            SuperOf(full, NR_SUPER + 1) == NONE && TakenSlotAsWritten(full, NR_SUPER + 1) == NONE
  {
    var full := seq(NR_SUPER, k => FREE_SUPER.(dev := k + 1));
    assert forall k :: 0 <= k < NR_SUPER ==> full[k].dev == k + 1;
  }

  /** `read_super` from the point where slot `k` is taken: read block 1, check the magic, read the bitmaps. */
  method Fill(fs: FileSystem, k: nat, dev: int) returns (r: int)
    requires fs.Valid() && k < NR_SUPER && fs.supers[k].dev == 0 && k == SuperFrom(fs.supers, 0, 0)
    requires dev != 0 && SuperOf(fs.supers, dev) == NONE
    modifies fs
    ensures fs.Valid()
    ensures fs.inodes == old(fs.inodes) && fs.lastInode == old(fs.lastInode)
    ensures fs.files == old(fs.files) && fs.rootDev == old(fs.rootDev)
    ensures r != NONE <==> old(Loadable(fs.blocks, dev))
    ensures r != NONE ==> r == k && fs.supers == old(fs.supers[k := Loaded(fs.blocks, dev)]) &&
                          fs.blocks == old(Pinned(fs.blocks, dev, MapCount(Loaded(fs.blocks, dev).d)))
    ensures r == NONE ==> fs.blocks == old(fs.blocks) && fs.supers == old(fs.supers)[k := fs.supers[k]] &&
                          fs.supers[k].dev == 0
  {
    var ok, s := LoadSuper(fs.blocks, fs.supers[k], dev);
    if !ok {
      fs.supers := fs.supers[k := s];
      return NONE;
    }
    Pin(fs, k, s, MapCount(s.d));
    return k;
  }

  /**
   * The reads of `read_super` into slot record `s0` for `dev`: block 1,
   * the magic number and the bitmaps. It succeeds exactly when the device
   * is `Loadable`, with the record `Loaded`; otherwise the record is
   * handed back with `s_dev` 0.
   */
  method LoadSuper(blocks: map<(int, int), Block>, s0: Super, dev: int) returns (ok: bool, s: Super)
    requires forall key :: key in blocks ==> |blocks[key].data| == BLOCK_SIZE
    requires dev != 0 && s0.Valid()
    ensures ok <==> Loadable(blocks, dev)
    ensures ok ==> s == Loaded(blocks, dev) && s.Valid()
    ensures !ok ==> s.Valid() && s.dev == 0
  {
    s := s0.(dev := dev, isup := NONE, imount := NONE, time := 0, rdOnly := false, dirt := false);
    if (dev, 1) !in blocks {
      return false, s.(dev := 0);
    }
    s := s.(d := DecodeDSuper(blocks[(dev, 1)].data));
    if s.d.magic != SUPER_MAGIC {
      return false, s.(dev := 0);
    }
    var im, zm;
    ok, im, zm := ReadBitmaps(blocks, dev, s.d);
    if !ok {
      return false, s.(dev := 0);
    }
    s := s.(inodeMap := MarkZero(im), zoneMap := MarkZero(zm),
            inodeMapDirt := MapDirt(blocks, dev, 2, s.d.imapBlocks),
            zoneMapDirt := MapDirt(blocks, dev, 2 + s.d.imapBlocks, s.d.zmapBlocks));
    LoadedSane(blocks, dev);
  }

  /**
   * The two bitmap loops of `read_super` for disk superblock `d`: the
   * zone-bitmap loop starts at the block after the last inode-bitmap
   * block read. `ok` is the check that every named block was read.
   */
  method ReadBitmaps(blocks: map<(int, int), Block>, dev: int, d: DSuper)
    returns (ok: bool, im: seq<seq<byte>>, zm: seq<seq<byte>>)
    ensures ok <==> forall j :: 2 <= j < 2 + MapCount(d) ==> (dev, j) in blocks
    ensures ok ==> im == MapData(blocks, dev, 2, d.imapBlocks) && zm == MapData(blocks, dev, 2 + d.imapBlocks, d.zmapBlocks)
  {
    im := ReadMaps(blocks, dev, 2, d.imapBlocks);
    zm := ReadMaps(blocks, dev, 2 + |im|, d.zmapBlocks);
    ok := 2 + |im| + |zm| == 2 + d.imapBlocks + d.zmapBlocks;
    if !ok {
      ShortRead(blocks, dev, d, |im|, |zm|);
    } else {
      assert |im| == d.imapBlocks && |zm| == d.zmapBlocks;
      assert forall j :: 2 <= j < 2 + MapCount(d) ==> (dev, j) in blocks by {
        forall j | 2 <= j < 2 + MapCount(d) ensures (dev, j) in blocks {
          if j < 2 + d.imapBlocks {
            assert ReadsAs(blocks, dev, 2 + (j - 2), im[j - 2]);
          } else {
            assert ReadsAs(blocks, dev, 2 + |im| + (j - 2 - |im|), zm[j - 2 - |im|]);
          }
        }
      }
    }
  }

  /** When the two bitmap loops read fewer blocks than named, some bitmap block is unreadable. */
  lemma ShortRead(blocks: map<(int, int), Block>, dev: int, d: DSuper, ni: nat, nz: nat)
    requires ni <= d.imapBlocks && nz <= d.zmapBlocks && ni + nz != d.imapBlocks + d.zmapBlocks
    requires ni < d.imapBlocks ==> (dev, 2 + ni) !in blocks
    requires nz < d.zmapBlocks ==> (dev, 2 + ni + nz) !in blocks
    ensures exists j :: 2 <= j < 2 + MapCount(d) && (dev, j) !in blocks
  {
    if ni < d.imapBlocks {
      assert 2 <= 2 + ni < 2 + MapCount(d);
    } else {
      assert 2 <= 2 + ni + nz < 2 + MapCount(d);
    }
  }

  /**
   * Slot `k` receives the loaded superblock `s`, and each of its `n`
   * bitmap blocks gains the reference its buffer pointer keeps.
   */
  method Pin(fs: FileSystem, k: nat, s: Super, n: nat)
    requires fs.Valid() && k < NR_SUPER && s.Valid()
    modifies fs
    ensures fs.Valid()
    ensures fs.blocks == Pinned(old(fs.blocks), s.dev, n) && fs.supers == old(fs.supers)[k := s]
    ensures fs.inodes == old(fs.inodes) && fs.lastInode == old(fs.lastInode)
    ensures fs.files == old(fs.files) && fs.rootDev == old(fs.rootDev)
  {
    fs.blocks, fs.supers := Pinned(fs.blocks, s.dev, n), fs.supers[k := s];
  }

  // ---------------------------------------------------------------------
  // put_super
  // ---------------------------------------------------------------------

  /** `put_super(dev)` frees the superblock of `dev`: it is loaded, not the root device's, and not mounted anywhere. */
  ghost predicate PutFrees(supers: seq<Super>, rootDev: int, dev: int)
  {
    var sb := SuperOf(supers, dev);
    dev != rootDev && sb != NONE && supers[sb].imount == NONE
  }

  /**
   * `put_super(dev)`: the root device and a superblock mounted somewhere
   * are refused, an absent device is ignored; otherwise the slot is freed
   * and its bitmap buffers released.
   */
  method PutSuper(fs: FileSystem, dev: int)
    requires fs.Valid()
    requires PutFrees(fs.supers, fs.rootDev, dev) ==>
               PinsHeld(fs.blocks, dev, MapCount(fs.supers[SuperOf(fs.supers, dev)].d))
    modifies fs
    ensures fs.Valid()
    ensures fs.inodes == old(fs.inodes) && fs.lastInode == old(fs.lastInode)
    ensures fs.files == old(fs.files) && fs.rootDev == old(fs.rootDev)
    ensures !old(PutFrees(fs.supers, fs.rootDev, dev)) ==> fs.supers == old(fs.supers) && fs.blocks == old(fs.blocks)
    ensures old(PutFrees(fs.supers, fs.rootDev, dev)) ==>
              var sb := old(SuperOf(fs.supers, dev));
              fs.supers == old(fs.supers[sb := fs.supers[sb].(dev := 0)]) &&
              fs.blocks == old(Unpinned(Flushed(fs.blocks, fs.supers[sb]), dev, MapCount(fs.supers[sb].d)))
  {
    if dev == fs.rootDev {
      return;
    }
    var sb := fs.GetSuper(dev);
    if sb == NONE || fs.supers[sb].imount != NONE {
      return;
    }
    var s := fs.supers[sb];
    fs.supers := fs.supers[sb := s.(dev := 0)];
    fs.blocks := Flushed(fs.blocks, s);
    Unpin(fs, dev, MapCount(s.d));
  }

  /** Bit 0 already set, `MarkZero` leaves the bitmap as it is. */
  lemma MarkZeroKeeps(maps: seq<seq<byte>>)
    requires |maps| > 0 ==> |maps[0]| == BLOCK_SIZE && Bit(maps[0], 0)
    ensures MarkZero(maps) == maps
  {
    if |maps| > 0 {
      assert SetB(maps[0][0], 0) == maps[0][0];
      assert maps[0][0 := maps[0][0]] == maps[0];
    }
  }

  /** After the write-back, the bitmap blocks hold the record's bitmaps. */
  lemma FlushedMaps(blocks: map<(int, int), Block>, f: map<(int, int), Block>, s: Super)
    requires s.Valid() && |s.inodeMap| == s.d.imapBlocks && |s.zoneMap| == s.d.zmapBlocks
    requires f == Flushed(blocks, s) && f.Keys == blocks.Keys
    requires forall j :: 2 <= j < 2 + s.d.imapBlocks ==> (s.dev, j) in f
    requires forall j :: 2 + s.d.imapBlocks <= j < 2 + s.d.imapBlocks + s.d.zmapBlocks ==> (s.dev, j) in f
    ensures MapData(f, s.dev, 2, s.d.imapBlocks) == s.inodeMap
    ensures MapData(f, s.dev, 2 + s.d.imapBlocks, s.d.zmapBlocks) == s.zoneMap
  {
    var ni: int, nz: int := s.d.imapBlocks, s.d.zmapBlocks;
    var im := MapData(f, s.dev, 2, ni);
    assert im == s.inodeMap by {
      forall j | 0 <= j < ni ensures im[j] == s.inodeMap[j] {
        assert (s.dev, 2 + j) in blocks;
      }
    }
    var zm := MapData(f, s.dev, 2 + ni, nz);
    assert zm == s.zoneMap by {
      forall j | 0 <= j < nz ensures zm[j] == s.zoneMap[j] {
        assert (s.dev, 2 + ni + j) in blocks;
      }
    }
  }

  /** Dropping the bitmap buffers' references leaves every block's contents. */
  lemma UnpinnedMaps(f: map<(int, int), Block>, dev: int, n: nat, first: int, m: nat)
    requires PinsHeld(f, dev, n) && forall j :: first <= j < first + m ==> (dev, j) in f
    ensures MapData(Unpinned(f, dev, n), dev, first, m) == MapData(f, dev, first, m)
  {
    var b, u, v := Unpinned(f, dev, n), MapData(Unpinned(f, dev, n), dev, first, m), MapData(f, dev, first, m);
    forall j | 0 <= j < m ensures u[j] == v[j] {
      assert b[(dev, first + j)].data == f[(dev, first + j)].data;
    }
  }

  /**
   * `read_super` after `put_super` finds the bitmaps the superblock held
   * when it was put: each bitmap block holds the record's copy, block 1
   * still gives the same disk record, and the device can be loaded again.
   */
  lemma PutThenLoad(blocks: map<(int, int), Block>, s: Super)
    requires s.Valid() && SuperSane(s) && |s.inodeMap| == s.d.imapBlocks && |s.zoneMap| == s.d.zmapBlocks
    requires Loadable(blocks, s.dev) && DecodeDSuper(blocks[(s.dev, 1)].data) == s.d
    requires PinsHeld(blocks, s.dev, MapCount(s.d)) && forall key :: key in blocks ==> |blocks[key].data| == BLOCK_SIZE
    ensures var f := Flushed(blocks, s);
            PinsHeld(f, s.dev, MapCount(s.d)) &&
            var b := Unpinned(f, s.dev, MapCount(s.d));
            Loadable(b, s.dev) && (forall key :: key in b ==> |b[key].data| == BLOCK_SIZE) &&
            Loaded(b, s.dev).d == s.d && Loaded(b, s.dev).inodeMap == s.inodeMap && Loaded(b, s.dev).zoneMap == s.zoneMap
  {
    var dev, n := s.dev, MapCount(s.d);
    var f := Flushed(blocks, s);
    assert PinsHeld(f, dev, n) by {
      forall key | IsMapBlock(key, dev, n) ensures key in f && f[key].count >= 1 {
        assert key in blocks;
      }
    }
    var b := Unpinned(f, dev, n);
    assert b[(dev, 1)] == blocks[(dev, 1)];
    assert forall key :: key in b ==> b[key].data == f[key].data;
    assert forall j :: 2 <= j < 2 + n ==> (dev, j) in f;
    FlushedMaps(blocks, f, s);
    UnpinnedMaps(f, dev, n, 2, s.d.imapBlocks);
    UnpinnedMaps(f, dev, n, 2 + s.d.imapBlocks, s.d.zmapBlocks);
    MarkZeroKeeps(s.inodeMap);
    MarkZeroKeeps(s.zoneMap);
  }

  /** Each of the `n` bitmap blocks of `dev` loses its reference (`brelse`). */
  method Unpin(fs: FileSystem, dev: int, n: nat)
    requires fs.Valid() && PinsHeld(fs.blocks, dev, n)
    modifies fs
    ensures fs.Valid()
    ensures fs.blocks == Unpinned(old(fs.blocks), dev, n)
    ensures fs.inodes == old(fs.inodes) && fs.lastInode == old(fs.lastInode) && fs.supers == old(fs.supers)
    ensures fs.files == old(fs.files) && fs.rootDev == old(fs.rootDev)
  {
    fs.blocks := Unpinned(fs.blocks, dev, n);
  }

  /** No device is loaded in two slots. */
  ghost predicate OncePerDevice(supers: seq<Super>)
  {
    forall a, b :: 0 <= a < b < |supers| && supers[a].dev != 0 ==> supers[a].dev != supers[b].dev
  }

  /** Filling a free slot with a device no slot holds keeps every device in one slot. */
  lemma FillKeepsOnce(supers: seq<Super>, k: nat, s: Super)
    requires OncePerDevice(supers) && k < |supers| && supers[k].dev == 0
    requires s.dev != 0 ==> SuperOf(supers, s.dev) == NONE
    ensures OncePerDevice(supers[k := s])
  {
  }

  /** After `put_super` frees a device loaded once, `get_super` no longer finds it, and finds every other device where it was. */
  lemma PutForgets(supers: seq<Super>, rootDev: int, dev: int, d: int)
    requires PutFrees(supers, rootDev, dev) && OncePerDevice(supers)
    ensures var sb := SuperOf(supers, dev);
            var t := supers[sb := supers[sb].(dev := 0)];
            SuperOf(t, dev) == NONE && OncePerDevice(t) && (d != dev ==> SuperOf(t, d) == SuperOf(supers, d))
  {
    var sb := SuperOf(supers, dev);
    var t := supers[sb := supers[sb].(dev := 0)];
    assert forall m :: 0 <= m < |t| ==> t[m].dev != dev by {
      forall m | 0 <= m < |t| ensures t[m].dev != dev {
        if m < sb {
          assert t[m] == supers[m];
        } else if m > sb {
          assert t[m] == supers[m];
        }
      }
    }
    if d != dev && d != 0 {
      var a, b := SuperOf(t, d), SuperOf(supers, d);
      assert a != NONE ==> t[a] == supers[a];
      assert b != NONE ==> t[b] == supers[b];
    }
  }

  // ---------------------------------------------------------------------
  // mount_root
  // ---------------------------------------------------------------------

  /** The block holding the root inode of `dev` can be read, once its superblock can. */
  ghost predicate RootReadable(blocks: map<(int, int), Block>, dev: int)
    requires Loadable(blocks, dev)
  {
    (dev, InodeBlock(DecodeDSuper(blocks[(dev, 1)].data), ROOT_INO)) in blocks
  }

  /** The file-table loop of `mount_root`: every slot's reference count becomes 0. */
  method ClearFileCounts(fs: FileSystem)
    requires fs.Valid()
    modifies fs
    ensures fs.Valid()
    ensures |fs.files| == NR_FILE && forall k :: 0 <= k < NR_FILE ==> fs.files[k] == old(fs.files[k]).(count := 0)
    ensures fs.inodes == old(fs.inodes) && fs.lastInode == old(fs.lastInode) && fs.supers == old(fs.supers)
    ensures fs.blocks == old(fs.blocks) && fs.rootDev == old(fs.rootDev)
  {
    var k := 0;
    while k < NR_FILE
      invariant 0 <= k <= NR_FILE && fs.Valid()
      invariant forall m :: 0 <= m < NR_FILE ==> fs.files[m] == if m < k then old(fs.files[m]).(count := 0) else old(fs.files[m])
      invariant fs.inodes == old(fs.inodes) && fs.lastInode == old(fs.lastInode) && fs.supers == old(fs.supers)
      invariant fs.blocks == old(fs.blocks) && fs.rootDev == old(fs.rootDev)
    {
      fs.files := fs.files[k := fs.files[k].(count := 0)];
      k := k + 1;
    }
  }

  /** The disk record of the root inode of a loadable `dev`. */
  function RootRecord(blocks: map<(int, int), Block>, dev: int): (r: DInode)
    requires Loadable(blocks, dev) && RootReadable(blocks, dev)
    requires forall key :: key in blocks ==> |blocks[key].data| == BLOCK_SIZE
  {
    LoadInode(blocks[(dev, InodeBlock(DecodeDSuper(blocks[(dev, 1)].data), ROOT_INO))].data, ROOT_INO)
  }

  /**
   * `mount_root` at boot, on tables as the kernel image leaves them (no
   * superblock loaded, no inode cached): every file-table count is
   * cleared, the root device's superblock is read into the first slot
   * and its root inode taken with four references: as the mounted root,
   * as the mount point, and as the task's working and root directory.
   * The source halts when either cannot be read; the preconditions say
   * that both can.
   */
  method MountRoot(fs: FileSystem, cur: Task) returns (mi: int, cur': Task)
    requires fs.Valid() && Loadable(fs.blocks, fs.rootDev) && RootReadable(fs.blocks, fs.rootDev)
    requires forall k :: 0 <= k < NR_SUPER ==> fs.supers[k].dev == 0
    requires forall k :: 0 <= k < NR_INODE ==> fs.inodes[k] == ZERO_INODE
    modifies fs
    ensures fs.Valid() && 0 <= mi < NR_INODE && cur' == cur.(pwd := mi, root := mi)
    ensures forall k :: 0 <= k < NR_FILE ==> fs.files[k] == old(fs.files[k]).(count := 0)
    ensures fs.supers == old(fs.supers)[0 := old(Loaded(fs.blocks, fs.rootDev)).(isup := mi, imount := mi)]
    ensures fs.blocks == old(Pinned(fs.blocks, fs.rootDev, MapCount(Loaded(fs.blocks, fs.rootDev).d)))
    ensures fs.inodes == old(fs.inodes)[mi := Named(fs.rootDev, ROOT_INO).(d := old(RootRecord(fs.blocks, fs.rootDev)), count := 4)]
    ensures fs.rootDev == old(fs.rootDev)
  {
    ClearFileCounts(fs);
    mi := SetUpRoot(fs);
    cur' := cur.(pwd := mi, root := mi);
  }

  /** The body of `mount_root` after the file table is cleared: load the root superblock, fetch inode 1, link it. */
  method SetUpRoot(fs: FileSystem) returns (mi: int)
    requires fs.Valid() && Loadable(fs.blocks, fs.rootDev) && RootReadable(fs.blocks, fs.rootDev)
    requires forall k :: 0 <= k < NR_SUPER ==> fs.supers[k].dev == 0
    requires forall k :: 0 <= k < NR_INODE ==> fs.inodes[k] == ZERO_INODE
    modifies fs
    ensures fs.Valid() && 0 <= mi < NR_INODE
    ensures fs.supers[0] == old(Loaded(fs.blocks, fs.rootDev)).(isup := mi, imount := mi)
    ensures forall k :: 1 <= k < NR_SUPER ==> fs.supers[k] == old(fs.supers[k])
    ensures fs.blocks == old(Pinned(fs.blocks, fs.rootDev, MapCount(Loaded(fs.blocks, fs.rootDev).d)))
    ensures fs.inodes[mi] == Named(fs.rootDev, ROOT_INO).(d := old(RootRecord(fs.blocks, fs.rootDev)), count := 4)
    ensures forall k :: 0 <= k < NR_INODE && k != mi ==> fs.inodes[k] == old(fs.inodes[k])
    ensures fs.files == old(fs.files) && fs.rootDev == old(fs.rootDev)
  {
    var p := ReadRootSuper(fs);
    mi := AttachRoot(fs, p);
  }

  /** `iget(ROOT_DEV, ROOT_INO)` and the three extra references and mount links of `mount_root`. */
  method AttachRoot(fs: FileSystem, p: nat) returns (mi: int)
    requires fs.Valid() && p < NR_SUPER && SuperOf(fs.supers, fs.rootDev) == p
    requires (fs.rootDev, InodeBlock(fs.supers[p].d, ROOT_INO)) in fs.blocks
    requires forall k :: 0 <= k < NR_INODE ==> fs.inodes[k] == ZERO_INODE
    modifies fs
    ensures fs.Valid() && 0 <= mi < NR_INODE
    ensures fs.supers[p] == old(fs.supers[p]).(isup := mi, imount := mi)
    ensures forall k :: 0 <= k < NR_SUPER && k != p ==> fs.supers[k] == old(fs.supers[k])
    ensures fs.inodes[mi] == Named(fs.rootDev, ROOT_INO).(d := old(LoadInode(fs.blocks[(fs.rootDev, InodeBlock(fs.supers[p].d, ROOT_INO))].data, ROOT_INO)), count := 4)
    ensures forall k :: 0 <= k < NR_INODE && k != mi ==> fs.inodes[k] == old(fs.inodes[k])
    ensures fs.files == old(fs.files) && fs.blocks == old(fs.blocks) && fs.rootDev == old(fs.rootDev)
  {
    mi := GetRootInode(fs);
    LinkRoot(fs, p, mi);
  }

  /** `read_super(ROOT_DEV)` on an empty superblock table fills the first slot. */
  method ReadRootSuper(fs: FileSystem) returns (p: nat)
    requires fs.Valid() && Loadable(fs.blocks, fs.rootDev) && RootReadable(fs.blocks, fs.rootDev)
    requires forall k :: 0 <= k < NR_SUPER ==> fs.supers[k].dev == 0
    modifies fs
    ensures fs.Valid() && p == 0
    ensures fs.supers[0] == old(Loaded(fs.blocks, fs.rootDev))
    ensures forall k :: 1 <= k < NR_SUPER ==> fs.supers[k] == old(fs.supers[k])
    ensures fs.blocks == old(Pinned(fs.blocks, fs.rootDev, MapCount(Loaded(fs.blocks, fs.rootDev).d)))
    ensures SuperOf(fs.supers, fs.rootDev) == 0 && (fs.rootDev, InodeBlock(fs.supers[0].d, ROOT_INO)) in fs.blocks
    ensures LoadInode(fs.blocks[(fs.rootDev, InodeBlock(fs.supers[0].d, ROOT_INO))].data, ROOT_INO) ==
            old(RootRecord(fs.blocks, fs.rootDev))
    ensures fs.inodes == old(fs.inodes) && fs.files == old(fs.files) && fs.rootDev == old(fs.rootDev)
  {
    assert SuperFrom(fs.supers, 0, 0) == 0;
    ghost var s0, b0 := fs.supers, fs.blocks;
    ghost var l := Loaded(b0, fs.rootDev);
    LoadedSane(b0, fs.rootDev);
    var r := ReadSuper(fs, fs.rootDev);
    FillFreeSlot(s0, 0, l, fs.rootDev);
    PinnedKeepsData(b0, fs.rootDev, MapCount(l.d), (fs.rootDev, InodeBlock(l.d, ROOT_INO)));
    p := r;
  }

  /** `iget(ROOT_DEV, ROOT_INO)` on an empty inode table loads the root inode into a slot. */
  method GetRootInode(fs: FileSystem) returns (mi: int)
    requires fs.Valid() && SuperOf(fs.supers, fs.rootDev) != NONE
    requires (fs.rootDev, InodeBlock(fs.supers[SuperOf(fs.supers, fs.rootDev)].d, ROOT_INO)) in fs.blocks
    requires forall k :: 0 <= k < NR_INODE ==> fs.inodes[k] == ZERO_INODE
    modifies fs
    ensures fs.Valid() && 0 <= mi < NR_INODE
    ensures fs.files == old(fs.files) && fs.blocks == old(fs.blocks) && fs.rootDev == old(fs.rootDev)
    ensures fs.supers == old(fs.supers)
    ensures fs.inodes == old(fs.inodes)[mi := Named(fs.rootDev, ROOT_INO).(d := LoadInode(fs.blocks[(fs.rootDev, InodeBlock(fs.supers[SuperOf(fs.supers, fs.rootDev)].d, ROOT_INO))].data, ROOT_INO))]
  {
    SlotFromFirst(fs.inodes, fs.rootDev, ROOT_INO, 0);
    assert !NoneFree(fs.inodes) by {
      assert fs.inodes[0].count == 0;
    }
    mi := Iget(fs, fs.rootDev, ROOT_INO);
    assert mi != NONE;
  }

  /** The three extra references on the root inode, and superblock `p` mounted on it as its own root. */
  method LinkRoot(fs: FileSystem, p: nat, mi: nat)
    requires fs.Valid() && p < NR_SUPER && mi < NR_INODE
    modifies fs
    ensures fs.Valid()
    ensures fs.inodes == old(fs.inodes)[mi := old(fs.inodes[mi]).(count := old(fs.inodes[mi].count) + 3)]
    ensures fs.supers == old(fs.supers)[p := old(fs.supers[p]).(isup := mi, imount := mi)]
    ensures fs.files == old(fs.files) && fs.blocks == old(fs.blocks) && fs.rootDev == old(fs.rootDev)
  {
    fs.inodes := fs.inodes[mi := fs.inodes[mi].(count := fs.inodes[mi].count + 3)];
    fs.supers := fs.supers[p := fs.supers[p].(isup := mi, imount := mi)];
  }
}
