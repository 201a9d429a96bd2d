/*
 * `_bmap` of fs/inode.c with its two entry points `bmap` (look a file
 * block up) and `create_block` (look it up, allocating what is missing):
 * the map from a block of a file to a zone of its device through the
 * seven direct zones, the indirect block `i_zone[7]` (512 entries) and
 * the double-indirect block `i_zone[8]` (512 x 512 entries).
 */
module Bmap {
  import opened Layout
  import opened Records
  import opened Tables
  import opened Alloc

  const NR_DIRECT: nat := 7
  const NR_INDIRECT: nat := BLOCK_SIZE / 2
  /** `7 + 512 + 512 * 512`: the first block number `_bmap` refuses. */
  const MAX_FILE_BLOCKS: nat := NR_DIRECT + NR_INDIRECT + NR_INDIRECT * NR_INDIRECT

  /** Where the zone of a file block is recorded. */
  datatype Path = Direct(k: nat) | Single(k: nat) | Double(hi: nat, lo: nat)
  {
    predicate Ok()
    {
      match this
      case Direct(k) => k < NR_DIRECT
      case Single(k) => k < NR_INDIRECT
      case Double(hi, lo) => hi < NR_INDIRECT && lo < NR_INDIRECT
    }
  }

  /**
   * Blocks below 7 are direct; `block - 7` below 512 indexes the indirect
   * block; the rest, less 519, split into `>> 9` and `& 511`.
   */
  function PathOf(block: nat): (p: Path)
    requires block < MAX_FILE_BLOCKS
    ensures p.Ok()
  {
    if block < NR_DIRECT then Direct(block)
    else if block - NR_DIRECT < NR_INDIRECT then Single(block - NR_DIRECT)
    else
      var b := block - NR_DIRECT - NR_INDIRECT;
      Double(b / NR_INDIRECT, b % NR_INDIRECT)
  }

  /** The file block whose zone is recorded at `p`. */
  function BlockOf(p: Path): (block: nat)
    requires p.Ok()
    ensures block < MAX_FILE_BLOCKS
  {
    match p
    case Direct(k) => k
    case Single(k) => NR_DIRECT + k
    case Double(hi, lo) =>
      IndexBound(hi, lo);
      NR_DIRECT + NR_INDIRECT + hi * NR_INDIRECT + lo
  }

  lemma IndexBound(hi: nat, lo: nat)
    requires hi < 512 && lo < 512
    ensures hi * 512 + lo < 512 * 512
  {
    assert hi * 512 <= 511 * 512;
  }

  /** Every file block has one place, and every place belongs to one file block. */
  lemma PathRoundTrip(block: nat)
    requires block < MAX_FILE_BLOCKS
    ensures BlockOf(PathOf(block)) == block
  {
  }

  lemma BlockRoundTrip(p: Path)
    requires p.Ok()
    ensures PathOf(BlockOf(p)) == p
  {
    if p.Double? {
      var b := p.hi * NR_INDIRECT + p.lo;
      assert b / NR_INDIRECT == p.hi && b % NR_INDIRECT == p.lo by {
        DivModUnique(b, p.hi, p.lo);
      }
    }
  }

  lemma DivModUnique(b: nat, q: nat, r: nat)
    requires r < 512 && b == q * 512 + r
    ensures b / 512 == q && b % 512 == r
  {
  }

  /** All blocks of the store are full blocks. */
  ghost predicate BlocksOk(blocks: map<(int, int), Block>)
  {
    forall key :: key in blocks ==> |blocks[key].data| == BLOCK_SIZE
  }

  /** Entry `k` of index block `z` of `dev`, 0 when `z` is 0 or cannot be read. */
  function Entry(blocks: map<(int, int), Block>, dev: int, z: int, k: nat): (e: u16)
    requires BlocksOk(blocks) && k < NR_INDIRECT
    ensures z == 0 || (dev, z) !in blocks ==> e == 0
  {
    if z == 0 || (dev, z) !in blocks then 0 else IndexEntry(blocks[(dev, z)].data, k)
  }

  /**
   * `bmap(inode, block)`: the zone holding `block` of a file with zone
   * pointers `zone` on `dev`, 0 when a level on the way is missing or
   * unreadable.
   */
  function Lookup(zone: seq<u16>, blocks: map<(int, int), Block>, dev: int, block: nat): (z: u16)
    requires |zone| == 9 && BlocksOk(blocks) && block < MAX_FILE_BLOCKS
    ensures block < NR_DIRECT ==> z == zone[block]
    ensures PathOf(block).Single? && (zone[7] == 0 || (dev, zone[7] as int) !in blocks) ==> z == 0
    ensures PathOf(block).Double? && (zone[8] == 0 || (dev, zone[8] as int) !in blocks) ==> z == 0
  {
    match PathOf(block)
    case Direct(k) => zone[k]
    case Single(k) => Entry(blocks, dev, zone[7], k)
    case Double(hi, lo) => Entry(blocks, dev, Entry(blocks, dev, zone[8], hi), lo)
  }

  /**
   * The index blocks on the way to `block` that exist are allocated
   * zones: `new_block` cannot hand one of them out again (in the source,
   * `getblk` would find it held and halt).
   */
  ghost predicate PathAllocated(supers: seq<Super>, zone: seq<u16>, blocks: map<(int, int), Block>,
                                dev: int, block: nat)
    requires |zone| == 9 && BlocksOk(blocks) && block < MAX_FILE_BLOCKS
  {
    match PathOf(block)
    case Direct(_) => true
    case Single(_) => zone[7] != 0 ==> Allocated(supers, dev, zone[7])
    case Double(hi, _) =>
      (zone[8] != 0 ==> Allocated(supers, dev, zone[8])) &&
      (Entry(blocks, dev, zone[8], hi) != 0 ==> Allocated(supers, dev, Entry(blocks, dev, zone[8], hi)))
  }

  /** Both stores can read block `key`, with the same contents, or neither can. */
  ghost predicate SameBlock(b1: map<(int, int), Block>, b2: map<(int, int), Block>, key: (int, int))
  {
    (key in b1 <==> key in b2) && (key in b1 ==> b1[key].data == b2[key].data)
  }

  /** `bmap` reads only the index blocks on the way: blocks that agree on them give the same zone. */
  lemma LookupReadsPath(zone: seq<u16>, b1: map<(int, int), Block>, b2: map<(int, int), Block>, dev: int, block: nat)
    requires |zone| == 9 && BlocksOk(b1) && BlocksOk(b2) && block < MAX_FILE_BLOCKS
    requires PathOf(block).Single? ==> SameBlock(b1, b2, (dev, zone[7]))
    requires PathOf(block).Double? ==>
               SameBlock(b1, b2, (dev, zone[8])) && SameBlock(b1, b2, (dev, Entry(b1, dev, zone[8], PathOf(block).hi)))
    ensures Lookup(zone, b1, dev, block) == Lookup(zone, b2, dev, block)
  {
  }

  /**
   * What filling direct pointer `k` does to inode `i` (becoming `j`) and
   * the tables: a non-zero pointer is returned as it is with nothing
   * changed; a zero one gets a zone from `new_block`, and a new zone
   * stamps `i_ctime` with `now` and dirties the inode.
   */
  ghost predicate ZoneStep(i: MInode, s0: seq<Super>, b0: map<(int, int), Block>,
                           j: MInode, s1: seq<Super>, b1: map<(int, int), Block>, k: nat, now: int, z: int)
    requires i.Valid() && j.Valid() && k < 9
  {
    z == j.d.zone[k] &&
    (i.d.zone[k] != 0 ==> j == i && s1 == s0 && b1 == b0) &&
    (i.d.zone[k] == 0 ==>
       SupersGrew(s0, s1, i.dev, z) && CanAllocate(s1, b1, i.dev) &&
       (z != 0 ==> !Allocated(s0, i.dev, z) && Allocated(s1, i.dev, z)) &&
       b1 == (if z == 0 then b0 else b0[(i.dev, z) := ZERO_BLOCK]) &&
       ZoneFilled(i, j, k, now, z))
  }

  /** Inode `i` becomes `j` when a zero pointer `k` is given zone `z` (0: none) at time `now`. */
  ghost predicate ZoneFilled(i: MInode, j: MInode, k: nat, now: int, z: int)
    requires i.Valid() && k < 9
  {
    0 <= z < 0x1_0000 &&
    j == (if z == 0 then i else i.(d := i.d.(zone := i.d.zone[k := z]), ctime := now, dirt := true))
  }

  /**
   * What filling entry `k` of index block `ind` of `dev` does to the
   * tables: an entry already set, a zero `ind` or an unreadable block
   * change nothing; a zero entry gets a zone from `new_block`, written
   * into the index block, which becomes dirty.
   */
  ghost predicate EntryStep(s0: seq<Super>, b0: map<(int, int), Block>, s1: seq<Super>, b1: map<(int, int), Block>,
                            dev: int, ind: int, k: nat, e: int)
    requires BlocksOk(b0) && BlocksOk(b1) && k < NR_INDIRECT
  {
    var key := (dev, ind);
    e == Entry(b1, dev, ind, k) &&
    (Entry(b0, dev, ind, k) != 0 || ind == 0 || key !in b0 ==> s1 == s0 && b1 == b0) &&
    (Entry(b0, dev, ind, k) == 0 && ind != 0 && key in b0 ==>
       SupersGrew(s0, s1, dev, e) && CanAllocate(s1, b1, dev) &&
       (e == 0 ==> b1 == b0) &&
       (e != 0 ==> !Allocated(s0, dev, e) && Allocated(s1, dev, e) && e != ind &&
                   b1 == b0[(dev, e) := ZERO_BLOCK][key := b0[key].(data := SetIndexEntry(b0[key].data, k, e), dirt := true)]))
  }

  /** The direct pointer `i_zone[k]` of slot `x`, filled in if it is 0. */
  method EnsureZone(fs: FileSystem, x: nat, k: nat, now: int) returns (z: int)
    requires fs.Valid() && x < NR_INODE && k < 9
    requires fs.inodes[x].d.zone[k] == 0 ==> CanAllocate(fs.supers, fs.blocks, fs.inodes[x].dev)
    modifies fs
    ensures fs.Valid()
    ensures ZoneStep(old(fs.inodes[x]), old(fs.supers), old(fs.blocks), fs.inodes[x], fs.supers, fs.blocks, k, now, z)
    ensures fs.lastInode == old(fs.lastInode) && fs.files == old(fs.files) && fs.rootDev == old(fs.rootDev)
    ensures forall m :: 0 <= m < NR_INODE && m != x ==> fs.inodes[m] == old(fs.inodes[m])
  {
    var i := fs.inodes[x];
    if i.d.zone[k] != 0 {
      return i.d.zone[k];
    }
    ghost var found, bi, bj;
    z, found, bi, bj := NewBlock(fs, i.dev);
    if z != 0 {
      fs.inodes := fs.inodes[x := i.(d := i.d.(zone := i.d.zone[k := z]), ctime := now, dirt := true)];
    }
  }

  /** Entry `k` of index block `ind` of `dev`, filled in if it is 0. */
  method EnsureEntry(fs: FileSystem, dev: int, ind: int, k: nat) returns (e: int)
    requires fs.Valid() && k < NR_INDIRECT
    requires Entry(fs.blocks, dev, ind, k) == 0 && ind != 0 && (dev, ind) in fs.blocks ==>
               CanAllocate(fs.supers, fs.blocks, dev) && Allocated(fs.supers, dev, ind)
    modifies fs
    ensures fs.Valid()
    ensures EntryStep(old(fs.supers), old(fs.blocks), fs.supers, fs.blocks, dev, ind, k, e)
    ensures fs.inodes == old(fs.inodes) && fs.lastInode == old(fs.lastInode)
    ensures fs.files == old(fs.files) && fs.rootDev == old(fs.rootDev)
  {
    var key := (dev, ind);
    if ind == 0 || key !in fs.blocks {
      return 0;
    }
    e := IndexEntry(fs.blocks[key].data, k);
    if e != 0 {
      return;
    }
    ghost var found, bi, bj;
    e, found, bi, bj := NewBlock(fs, dev);
    if e != 0 {
      WriteEntry(fs, key, k, e);
    }
  }

  /** Store `e` in entry `k` of block `key` and mark the block dirty. */
  method WriteEntry(fs: FileSystem, key: (int, int), k: nat, e: u16)
    requires fs.Valid() && key in fs.blocks && k < NR_INDIRECT
    modifies fs
    ensures fs.Valid()
    ensures fs.blocks == old(fs.blocks)[key := old(fs.blocks[key]).(data := SetIndexEntry(old(fs.blocks[key].data), k, e),
                                                                    dirt := true)]
    ensures fs.inodes == old(fs.inodes) && fs.lastInode == old(fs.lastInode) && fs.supers == old(fs.supers)
    ensures fs.files == old(fs.files) && fs.rootDev == old(fs.rootDev)
    ensures CanAllocate(fs.supers, old(fs.blocks), key.0) ==> CanAllocate(fs.supers, fs.blocks, key.0)
  {
    var b := fs.blocks[key];
    fs.blocks := fs.blocks[key := b.(data := SetIndexEntry(b.data, k, e), dirt := true)];
  }

  /**
   * What `create_block` on `block` does to an inode `i` (becoming `j`),
   * the superblocks `s0` (becoming `s1`) and the blocks `b0` (becoming
   * `b1`), returning `r`. A block already mapped is returned with nothing
   * changed; otherwise the result is what `bmap` then finds (0 when an
   * allocation failed or an index block could not be read), only zones
   * were gained, and a zone returned is a new one. No non-zero zone
   * pointer of the inode is overwritten, and `i_ctime`/`i_dirt` change
   * exactly when one of them was filled in.
   */
  ghost predicate CreateOutcome(i: MInode, s0: seq<Super>, b0: map<(int, int), Block>,
                                j: MInode, s1: seq<Super>, b1: map<(int, int), Block>,
                                block: nat, now: int, r: int)
    requires i.Valid() && j.Valid() && BlocksOk(b0) && BlocksOk(b1) && block < MAX_FILE_BLOCKS
  {
    var before := Lookup(i.d.zone, b0, i.dev, block);
    r == Lookup(j.d.zone, b1, j.dev, block) &&
    (before != 0 ==> r == before && j == i && s1 == s0 && b1 == b0) &&
    (before == 0 ==>
       SupersOnlyGrew(s0, s1, i.dev) && CanAllocate(s1, b1, i.dev) &&
       (r != 0 ==> !Allocated(s0, i.dev, r) && Allocated(s1, i.dev, r))) &&
    PointersFilled(i, j, now)
  }

  /**
   * Inode `i` became `j` by zero zone pointers being filled in: no
   * non-zero pointer is overwritten, nothing but the pointers, `i_ctime`
   * and `i_dirt` changes, and the last two change exactly when a pointer did.
   */
  ghost predicate PointersFilled(i: MInode, j: MInode, now: int)
    requires i.Valid() && j.Valid()
  {
    j == i.(d := i.d.(zone := j.d.zone), ctime := j.ctime, dirt := j.dirt) &&
    (forall k :: 0 <= k < 9 && i.d.zone[k] != 0 ==> j.d.zone[k] == i.d.zone[k]) &&
    (j.d.zone == i.d.zone ==> j.ctime == i.ctime && j.dirt == i.dirt) &&
    (j.d.zone != i.d.zone ==> j.ctime == now && j.dirt)
  }

  /** Filling one zero pointer is a case of `PointersFilled`. */
  lemma FilledOne(i: MInode, j: MInode, k: nat, now: int, z: int)
    requires i.Valid() && j.Valid() && k < 9 && i.d.zone[k] == 0 && ZoneFilled(i, j, k, now, z)
    ensures PointersFilled(i, j, now)
  {
    if z != 0 {
      assert j.d.zone[k] != i.d.zone[k];
    }
  }

  /** What `create_block` may assume: a missing block can be allocated along an allocated path. */
  ghost predicate CanCreateIn(i: MInode, supers: seq<Super>, blocks: map<(int, int), Block>, block: nat)
    requires i.Valid() && BlocksOk(blocks) && block < MAX_FILE_BLOCKS
  {
    Lookup(i.d.zone, blocks, i.dev, block) == 0 ==>
      CanAllocate(supers, blocks, i.dev) && PathAllocated(supers, i.d.zone, blocks, i.dev, block)
  }

  /** Filling a direct pointer is `create_block` on a direct block. */
  lemma DirectOutcome(i: MInode, s0: seq<Super>, b0: map<(int, int), Block>,
                      j: MInode, s1: seq<Super>, b1: map<(int, int), Block>, block: nat, now: int, z: int)
    requires i.Valid() && j.Valid() && BlocksOk(b0) && BlocksOk(b1) && block < MAX_FILE_BLOCKS
    requires PathOf(block).Direct? && CanCreateIn(i, s0, b0, block)
    requires ZoneStep(i, s0, b0, j, s1, b1, block, now, z)
    ensures CreateOutcome(i, s0, b0, j, s1, b1, block, now, z)
  {
    if i.d.zone[block] == 0 {
      GrewChain(s0, s1, s1, i.dev, z);
    }
  }

  /**
   * Filling pointer `i_zone[n]` of inode `i` (which becomes `i1`, giving
   * `z`) and then entry `k` of the index block it names (giving `e`):
   * `e` is what the new tables hold there; an entry already set is
   * returned with nothing changed; else only zones were gained, the
   * index block is allocated, and a non-zero `e` is a new, zeroed zone.
   */
  ghost predicate IndexStep(i: MInode, s0: seq<Super>, b0: map<(int, int), Block>,
                            i1: MInode, s2: seq<Super>, b2: map<(int, int), Block>,
                            n: nat, k: nat, now: int, z: int, e: int)
    requires i.Valid() && i1.Valid() && BlocksOk(b0) && BlocksOk(b2) && 7 <= n < 9 && k < NR_INDIRECT
  {
    var dev := i.dev;
    z == i1.d.zone[n] && e == Entry(b2, dev, z, k) &&
    (i.d.zone[n] != 0 ==> i1 == i) && (i.d.zone[n] == 0 ==> ZoneFilled(i, i1, n, now, z)) &&
    (Entry(b0, dev, i.d.zone[n], k) != 0 ==> i1 == i && s2 == s0 && b2 == b0 && e == Entry(b0, dev, i.d.zone[n], k)) &&
    (Entry(b0, dev, i.d.zone[n], k) == 0 ==>
       SupersOnlyGrew(s0, s2, dev) && CanAllocate(s2, b2, dev) &&
       (z != 0 ==> Allocated(s2, dev, z)) &&
       (e != 0 ==> !Allocated(s0, dev, e) && Allocated(s2, dev, e) && e != z &&
                   (dev, e) in b2 && b2[(dev, e)] == ZERO_BLOCK))
  }

  /** A pointer step and an entry step together make an index step. */
  lemma IndexOutcome(i: MInode, s0: seq<Super>, b0: map<(int, int), Block>,
                     i1: MInode, s1: seq<Super>, b1: map<(int, int), Block>,
                     s2: seq<Super>, b2: map<(int, int), Block>, n: nat, k: nat, now: int, z: int, e: int)
    requires i.Valid() && i1.Valid() && BlocksOk(b0) && BlocksOk(b1) && BlocksOk(b2)
    requires 7 <= n < 9 && k < NR_INDIRECT
    requires Entry(b0, i.dev, i.d.zone[n], k) == 0 ==>
               CanAllocate(s0, b0, i.dev) && (i.d.zone[n] != 0 ==> Allocated(s0, i.dev, i.d.zone[n]))
    requires ZoneStep(i, s0, b0, i1, s1, b1, n, now, z)
    requires z == 0 ==> s2 == s1 && b2 == b1 && e == 0
    requires z != 0 ==> EntryStep(s1, b1, s2, b2, i.dev, z, k, e)
    ensures IndexStep(i, s0, b0, i1, s2, b2, n, k, now, z, e)
  {
    if Entry(b0, i.dev, i.d.zone[n], k) != 0 {
      assert i1 == i && s1 == s0 && b1 == b0 && z == i.d.zone[n] != 0;
    } else if i.d.zone[n] == 0 {
      IndexNew(i, s0, b0, i1, s1, b1, s2, b2, n, k, now, z, e);
    } else {
      assert i1 == i && s1 == s0 && b1 == b0;
      IndexThrough(i, s0, b0, s2, b2, n, k, now, e);
    }
  }

  /** Entry `k` filled behind an index block the inode already had. */
  lemma IndexThrough(i: MInode, s0: seq<Super>, b0: map<(int, int), Block>,
                     s2: seq<Super>, b2: map<(int, int), Block>, n: nat, k: nat, now: int, e: int)
    requires i.Valid() && BlocksOk(b0) && BlocksOk(b2) && 7 <= n < 9 && k < NR_INDIRECT
    requires i.d.zone[n] != 0 && Entry(b0, i.dev, i.d.zone[n], k) == 0
    requires CanAllocate(s0, b0, i.dev) && Allocated(s0, i.dev, i.d.zone[n])
    requires EntryStep(s0, b0, s2, b2, i.dev, i.d.zone[n], k, e)
    ensures IndexStep(i, s0, b0, i, s2, b2, n, k, now, i.d.zone[n], e)
  {
    GrewChain(s0, s0, s2, i.dev, e);
  }

  /** Entry `k` filled behind an index block just given to the inode (or none, when that failed). */
  lemma IndexNew(i: MInode, s0: seq<Super>, b0: map<(int, int), Block>,
                 i1: MInode, s1: seq<Super>, b1: map<(int, int), Block>,
                 s2: seq<Super>, b2: map<(int, int), Block>, n: nat, k: nat, now: int, z: int, e: int)
    requires i.Valid() && i1.Valid() && BlocksOk(b0) && BlocksOk(b1) && BlocksOk(b2)
    requires 7 <= n < 9 && k < NR_INDIRECT && i.d.zone[n] == 0
    requires ZoneStep(i, s0, b0, i1, s1, b1, n, now, z)
    requires z == 0 ==> s2 == s1 && b2 == b1 && e == 0
    requires z != 0 ==> EntryStep(s1, b1, s2, b2, i.dev, z, k, e)
    ensures IndexStep(i, s0, b0, i1, s2, b2, n, k, now, z, e)
  {
    if z != 0 {
      assert Entry(b1, i.dev, z, k) == 0;
    }
    GrewChain(s0, s1, s2, i.dev, e);
  }

  /** `i_zone[n]`, filled in if it is 0, and then entry `k` of its block, filled in if it is 0. */
  method EnsureIndex(fs: FileSystem, x: nat, n: nat, k: nat, now: int) returns (z: int, e: int)
    requires fs.Valid() && x < NR_INODE && 7 <= n < 9 && k < NR_INDIRECT
    requires Entry(fs.blocks, fs.inodes[x].dev, fs.inodes[x].d.zone[n], k) == 0 ==>
               CanAllocate(fs.supers, fs.blocks, fs.inodes[x].dev) &&
               (fs.inodes[x].d.zone[n] != 0 ==> Allocated(fs.supers, fs.inodes[x].dev, fs.inodes[x].d.zone[n]))
    modifies fs
    ensures fs.Valid()
    ensures IndexStep(old(fs.inodes[x]), old(fs.supers), old(fs.blocks), fs.inodes[x], fs.supers, fs.blocks, n, k, now, z, e)
    ensures fs.lastInode == old(fs.lastInode) && fs.files == old(fs.files) && fs.rootDev == old(fs.rootDev)
    ensures forall m :: 0 <= m < NR_INODE && m != x ==> fs.inodes[m] == old(fs.inodes[m])
  {
    var dev := fs.inodes[x].dev;
    ghost var i, s0, b0 := fs.inodes[x], fs.supers, fs.blocks;
    z := EnsureZone(fs, x, n, now);
    ghost var i1, s1, b1 := fs.inodes[x], fs.supers, fs.blocks;
    e := 0;
    if z != 0 {
      e := EnsureEntry(fs, dev, z, k);
    }
    IndexOutcome(i, s0, b0, i1, s1, b1, fs.supers, fs.blocks, n, k, now, z, e);
  }

  /** An index step through `i_zone[7]` is `create_block` on a block behind the indirect block. */
  lemma SingleOutcome(i: MInode, s0: seq<Super>, b0: map<(int, int), Block>,
                      i1: MInode, s1: seq<Super>, b1: map<(int, int), Block>, block: nat, now: int, z7: int, r: int)
    requires i.Valid() && i1.Valid() && BlocksOk(b0) && BlocksOk(b1) && block < MAX_FILE_BLOCKS
    requires PathOf(block).Single?
    requires IndexStep(i, s0, b0, i1, s1, b1, 7, PathOf(block).k, now, z7, r)
    ensures CreateOutcome(i, s0, b0, i1, s1, b1, block, now, r)
  {
  }

  /**
   * The last step behind the double-indirect block: filling entry `lo`
   * of block `m` (entry `hi` of block `z8`) leaves entry `hi` of `z8` as
   * it was, so `bmap` then reaches `r`.
   */
  lemma LastLevel(s0: seq<Super>, b0: map<(int, int), Block>, s2: seq<Super>, b2: map<(int, int), Block>,
                  s3: seq<Super>, b3: map<(int, int), Block>, dev: int, z8: int, hi: nat, m: int, lo: nat, r: int)
    requires BlocksOk(b0) && BlocksOk(b2) && BlocksOk(b3) && hi < NR_INDIRECT && lo < NR_INDIRECT
    requires m != 0 && m == Entry(b2, dev, z8, hi)
    requires EntryStep(s2, b2, s3, b3, dev, m, lo, r)
    requires Entry(b2, dev, m, lo) == 0 ==> Allocated(s2, dev, z8)
    ensures Entry(b3, dev, z8, hi) == m
  {
    if Entry(b2, dev, m, lo) == 0 && (dev, m) in b2 && r != 0 {
      assert r != z8;
      if m == z8 {
        assert lo != hi;
      }
    }
  }

  /** An index step through `i_zone[8]` and one more entry step is `create_block` behind the double-indirect block. */
  lemma DoubleOutcome(i: MInode, s0: seq<Super>, b0: map<(int, int), Block>,
                      i1: MInode, s2: seq<Super>, b2: map<(int, int), Block>, s3: seq<Super>, b3: map<(int, int), Block>,
                      block: nat, now: int, z8: int, m: int, r: int)
    requires i.Valid() && i1.Valid() && BlocksOk(b0) && BlocksOk(b2) && BlocksOk(b3)
    requires block < MAX_FILE_BLOCKS && PathOf(block).Double? && CanCreateIn(i, s0, b0, block)
    requires IndexStep(i, s0, b0, i1, s2, b2, 8, PathOf(block).hi, now, z8, m)
    requires m == 0 ==> s3 == s2 && b3 == b2 && r == 0
    requires m != 0 ==> EntryStep(s2, b2, s3, b3, i.dev, m, PathOf(block).lo, r)
    ensures CreateOutcome(i, s0, b0, i1, s3, b3, block, now, r)
  {
    if Lookup(i.d.zone, b0, i.dev, block) == 0 {
      DoubleFresh(i, s0, b0, i1, s2, b2, s3, b3, block, now, z8, m, r);
    } else {
      assert m != 0 && i1 == i && s2 == s0 && b2 == b0;
      assert s3 == s2 && b3 == b2;
    }
  }

  /** The case of `DoubleOutcome` where `bmap` found no zone yet. */
  lemma DoubleFresh(i: MInode, s0: seq<Super>, b0: map<(int, int), Block>,
                    i1: MInode, s2: seq<Super>, b2: map<(int, int), Block>, s3: seq<Super>, b3: map<(int, int), Block>,
                    block: nat, now: int, z8: int, m: int, r: int)
    requires i.Valid() && i1.Valid() && BlocksOk(b0) && BlocksOk(b2) && BlocksOk(b3)
    requires block < MAX_FILE_BLOCKS && PathOf(block).Double? && CanCreateIn(i, s0, b0, block)
    requires Lookup(i.d.zone, b0, i.dev, block) == 0
    requires IndexStep(i, s0, b0, i1, s2, b2, 8, PathOf(block).hi, now, z8, m)
    requires m == 0 ==> s3 == s2 && b3 == b2 && r == 0
    requires m != 0 ==> EntryStep(s2, b2, s3, b3, i.dev, m, PathOf(block).lo, r)
    ensures CreateOutcome(i, s0, b0, i1, s3, b3, block, now, r)
  {
    var dev, hi, lo := i.dev, PathOf(block).hi, PathOf(block).lo;
    if m != 0 {
      LastLevel(s0, b0, s2, b2, s3, b3, dev, z8, hi, m, lo, r);
    }
    assert i1.dev == dev && i1.d.zone[8] == z8 && m == Entry(b2, dev, z8, hi);
    DoubleFound(i1.d.zone, b2, b3, dev, block, m, r);
    if i.d.zone[8] == 0 {
      FilledOne(i, i1, 8, now, z8);
    } else {
      assert i1 == i;
    }
    GrewChain(s0, s2, s3, dev, r);
  }

  /** After the last entry step, `bmap` reaches the entry that step left. */
  lemma DoubleFound(zone: seq<u16>, b2: map<(int, int), Block>, b3: map<(int, int), Block>,
                    dev: int, block: nat, m: int, r: int)
    requires |zone| == 9 && BlocksOk(b2) && BlocksOk(b3) && block < MAX_FILE_BLOCKS && PathOf(block).Double?
    requires m == Entry(b2, dev, zone[8], PathOf(block).hi)
    requires m == 0 ==> b3 == b2 && r == 0
    requires m != 0 ==> Entry(b3, dev, zone[8], PathOf(block).hi) == m && r == Entry(b3, dev, m, PathOf(block).lo)
    ensures r == Lookup(zone, b3, dev, block)
  {
  }

  /** `create_block(inode, block)` on slot `x`, as `CreateOutcome` states it. */
  method CreateBlock(fs: FileSystem, x: nat, block: nat, now: int) returns (r: int)
    requires fs.Valid() && x < NR_INODE && block < MAX_FILE_BLOCKS
    requires CanCreateIn(fs.inodes[x], fs.supers, fs.blocks, block)
    modifies fs
    ensures fs.Valid()
    ensures CreateOutcome(old(fs.inodes[x]), old(fs.supers), old(fs.blocks),
                          fs.inodes[x], fs.supers, fs.blocks, block, now, r)
    ensures fs.lastInode == old(fs.lastInode) && fs.files == old(fs.files) && fs.rootDev == old(fs.rootDev)
    ensures forall m :: 0 <= m < NR_INODE && m != x ==> fs.inodes[m] == old(fs.inodes[m])
  {
    match PathOf(block)
    case Direct(k) =>
      ghost var i, s0, b0 := fs.inodes[x], fs.supers, fs.blocks;
      r := EnsureZone(fs, x, k, now);
      DirectOutcome(i, s0, b0, fs.inodes[x], fs.supers, fs.blocks, block, now, r);
    case Single(k) =>
      r := CreateSingle(fs, x, block, now);
    case Double(hi, lo) =>
      r := CreateDouble(fs, x, block, now);
  }

  /** The indirect case of `create_block`. */
  method CreateSingle(fs: FileSystem, x: nat, block: nat, now: int) returns (r: int)
    requires fs.Valid() && x < NR_INODE && block < MAX_FILE_BLOCKS && PathOf(block).Single?
    requires CanCreateIn(fs.inodes[x], fs.supers, fs.blocks, block)
    modifies fs
    ensures fs.Valid()
    ensures CreateOutcome(old(fs.inodes[x]), old(fs.supers), old(fs.blocks),
                          fs.inodes[x], fs.supers, fs.blocks, block, now, r)
    ensures fs.lastInode == old(fs.lastInode) && fs.files == old(fs.files) && fs.rootDev == old(fs.rootDev)
    ensures forall m :: 0 <= m < NR_INODE && m != x ==> fs.inodes[m] == old(fs.inodes[m])
  {
    ghost var i, s0, b0 := fs.inodes[x], fs.supers, fs.blocks;
    var z7;
    z7, r := EnsureIndex(fs, x, 7, PathOf(block).k, now);
    SingleOutcome(i, s0, b0, fs.inodes[x], fs.supers, fs.blocks, block, now, z7, r);
  }

  /** The double-indirect case of `create_block`. */
  method CreateDouble(fs: FileSystem, x: nat, block: nat, now: int) returns (r: int)
    requires fs.Valid() && x < NR_INODE && block < MAX_FILE_BLOCKS && PathOf(block).Double?
    requires CanCreateIn(fs.inodes[x], fs.supers, fs.blocks, block)
    modifies fs
    ensures fs.Valid()
    ensures CreateOutcome(old(fs.inodes[x]), old(fs.supers), old(fs.blocks),
                          fs.inodes[x], fs.supers, fs.blocks, block, now, r)
    ensures fs.lastInode == old(fs.lastInode) && fs.files == old(fs.files) && fs.rootDev == old(fs.rootDev)
    ensures forall m :: 0 <= m < NR_INODE && m != x ==> fs.inodes[m] == old(fs.inodes[m])
  {
    var dev := fs.inodes[x].dev;
    ghost var i, s0, b0 := fs.inodes[x], fs.supers, fs.blocks;
    var z8, m := EnsureIndex(fs, x, 8, PathOf(block).hi, now);
    ghost var i1, s2, b2 := fs.inodes[x], fs.supers, fs.blocks;
    r := 0;
    if m != 0 {
      r := EnsureEntry(fs, dev, m, PathOf(block).lo);
    }
    DoubleOutcome(i, s0, b0, i1, s2, b2, fs.supers, fs.blocks, block, now, z8, m, r);
  }
}
