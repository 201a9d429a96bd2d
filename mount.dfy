/*
 * fs/super.c, `sys_mount` and `sys_umount`: linking a loaded superblock
 * to the directory it is mounted on, and undoing it.
 *
 * Path lookup (`namei`) is not part of this module: each call takes the
 * inode slot `namei` returned (NONE for a failed lookup), holding the
 * reference `namei` gave it. `sys_mount` looks up two names, so it is
 * modelled as its two halves around the second lookup.
 *
 * `namei` only returns inodes that a directory entry names, so the
 * inodes these calls drop have links, and their `iput` never truncates.
 */
module Mount {
  import opened Layout
  import opened Records
  import opened Tables
  import opened Alloc
  import opened Iref
  import opened Supers

  // ---------------------------------------------------------------------
  // Table invariants the calls rely on
  // ---------------------------------------------------------------------

  /** Every dirty inode can be written back: its device is loaded and its inode block cached. */
  ghost predicate Settled(s: seq<MInode>, supers: seq<Super>, blocks: map<(int, int), Block>)
  {
    forall k :: 0 <= k < |s| && s[k].dirt ==> ReachableIn(supers, blocks, s[k])
  }

  /** An unused slot is clean: the last `iput` wrote it back. */
  ghost predicate UnusedClean(s: seq<MInode>)
  {
    forall k :: 0 <= k < |s| && s[k].count == 0 ==> !s[k].dirt
  }

  /** No inode of a device is cached in two slots, as `iget` only loads an inode it did not find. */
  ghost predicate CachedOnce(s: seq<MInode>)
  {
    forall a, b :: 0 <= a < |s| && 0 <= b < |s| && a != b && s[a].dev != 0 && s[a].dev == s[b].dev ==>
      s[a].num != s[b].num
  }

  /** A slot `namei` hands out: in use, not a pipe, and with links. */
  predicate Linked(i: MInode)
  {
    i.count != 0 && i.d.nlinks != 0 && !i.pipe
  }

  /**
   * `s1` is `s0` after `iput` on linked slots, `drops[k]` times on slot
   * `k`: each drop is one reference less and, at most, dirty bits were
   * cleared; a slot left unused is clean.
   */
  ghost predicate Lost(s0: seq<MInode>, s1: seq<MInode>, drops: multiset<int>)
  {
    |s1| == |s0| &&
    forall k :: 0 <= k < |s0| ==>
      s1[k] == s0[k].(count := s1[k].count, dirt := s1[k].dirt) && (s1[k].dirt ==> s0[k].dirt) &&
      s1[k].count == s0[k].count - drops[k] &&
      (s1[k].count == 0 ==> !s1[k].dirt || s0[k].count == 0)
  }

  /** `s1` is `s0` after `iput` on the linked slot `x` alone (nothing for NONE). */
  ghost predicate Dropped(s0: seq<MInode>, s1: seq<MInode>, x: int)
  {
    Lost(s0, s1, multiset{x})
  }

  /** Drops in a row add up. */
  lemma LostThen(s0: seq<MInode>, s1: seq<MInode>, s2: seq<MInode>, a: multiset<int>, b: multiset<int>)
    requires Lost(s0, s1, a) && Lost(s1, s2, b)
    ensures Lost(s0, s2, a + b)
  {
    forall k | 0 <= k < |s0|
      ensures s2[k] == s0[k].(count := s2[k].count, dirt := s2[k].dirt)
      ensures s2[k].count == 0 ==> !s2[k].dirt || s0[k].count == 0
    {
      assert s1[k] == s0[k].(count := s1[k].count, dirt := s1[k].dirt);
    }
  }

  /** The invariants `iput` on a linked slot needs, on the table `fs` holds. */
  ghost predicate Calm(fs: FileSystem)
    reads fs
  {
    fs.Valid() && Settled(fs.inodes, fs.supers, fs.blocks) && UnusedClean(fs.inodes)
  }

  /** With every dirty inode writable, `iput` on a linked slot cannot halt. */
  lemma LinkedCanPut(fs: FileSystem, x: nat)
    requires Calm(fs) && x < NR_INODE && Linked(fs.inodes[x])
    ensures CanPut(fs, x) && !Releases(fs.inodes[x])
  {
  }

  /** Dropping a reference keeps the invariants, when the superblocks stay and no block comes or goes. */
  lemma LostCalm(s0: seq<MInode>, s1: seq<MInode>, supers: seq<Super>,
                 b0: map<(int, int), Block>, b1: map<(int, int), Block>, x: multiset<int>)
    requires Settled(s0, supers, b0) && UnusedClean(s0) && Lost(s0, s1, x) && b1.Keys == b0.Keys
    ensures Settled(s1, supers, b1) && UnusedClean(s1)
    ensures CachedOnce(s0) ==> CachedOnce(s1)
    ensures MountsOk(s0) ==> MountsOk(s1)
  {
    forall k | 0 <= k < |s1| && s1[k].dirt
      ensures ReachableIn(supers, b1, s1[k])
    {
      assert s0[k].dirt && s1[k].dev == s0[k].dev && s1[k].num == s0[k].num;
    }
  }

  /**
   * `iput` on a slot `namei` returned (NONE for none): one reference
   * less, and nothing truncated or freed.
   */
  method PutLinked(fs: FileSystem, x: int, now: u32)
    requires Calm(fs) && (x != NONE ==> 0 <= x < NR_INODE && Linked(fs.inodes[x]))
    modifies fs
    ensures Calm(fs) && Dropped(old(fs.inodes), fs.inodes, x)
    ensures old(MountsOk(fs.inodes)) ==> MountsOk(fs.inodes)
    ensures old(CachedOnce(fs.inodes)) ==> CachedOnce(fs.inodes)
    ensures fs.supers == old(fs.supers) && HoldsKept(old(fs.blocks), fs.blocks)
    ensures x == NONE ==> fs.blocks == old(fs.blocks)
    ensures x != NONE ==> PutKeeps(old(fs.blocks), fs.blocks, old(fs.supers), old(fs.inodes), x)
    ensures RecordsOnly(old(fs.blocks), fs.blocks, fs.supers)
    ensures fs.lastInode == old(fs.lastInode) && fs.files == old(fs.files) && fs.rootDev == old(fs.rootDev)
  {
    if x == NONE {
      ghost var s0 := fs.inodes;
      var _ := Iput(fs, x, now);
      assert Dropped(s0, fs.inodes, x);
      return;
    }
    PutOneLinked(fs, x, now);
  }

  /** `iput` on linked slot `x`: one reference less, and nothing truncated or freed. */
  method PutOneLinked(fs: FileSystem, x: int, now: u32)
    requires Calm(fs) && 0 <= x < NR_INODE && Linked(fs.inodes[x])
    modifies fs
    ensures Calm(fs) && Dropped(old(fs.inodes), fs.inodes, x)
    ensures old(MountsOk(fs.inodes)) ==> MountsOk(fs.inodes)
    ensures old(CachedOnce(fs.inodes)) ==> CachedOnce(fs.inodes)
    ensures fs.supers == old(fs.supers) && HoldsKept(old(fs.blocks), fs.blocks)
    ensures PutKeeps(old(fs.blocks), fs.blocks, old(fs.supers), old(fs.inodes), x)
    ensures RecordsOnly(old(fs.blocks), fs.blocks, fs.supers)
    ensures fs.lastInode == old(fs.lastInode) && fs.files == old(fs.files) && fs.rootDev == old(fs.rootDev)
  {
    ghost var s0, b0 := fs.inodes, fs.blocks;
    LinkedCanPut(fs, x);
    var _ := Iput(fs, x, now);
    assert Dropped(s0, fs.inodes, x) by {
      forall k | 0 <= k < NR_INODE
        ensures fs.inodes[k] == s0[k].(count := fs.inodes[k].count, dirt := fs.inodes[k].dirt)
        ensures fs.inodes[k].dirt ==> s0[k].dirt
        ensures fs.inodes[k].count == s0[k].count - multiset{x}[k]
        ensures fs.inodes[k].count == 0 ==> !fs.inodes[k].dirt || s0[k].count == 0
      {
      }
    }
    LostCalm(s0, fs.inodes, fs.supers, b0, fs.blocks, multiset{x});
    PutKeepsRecordsOnly(b0, fs.blocks, fs.supers, s0, x);
  }

  // ---------------------------------------------------------------------
  // sys_mount
  // ---------------------------------------------------------------------

  /**
   * The first half of `sys_mount`: `di` is the slot `namei(dev_name)`
   * returned. A lookup that failed gives -ENOENT; an inode that is not
   * block-special gives -EPERM; otherwise the device number is its
   * `i_zone[0]`. The reference `namei` took is dropped either way.
   */
  method MountDevice(fs: FileSystem, di: int, now: u32) returns (err: int, dev: int)
    requires Calm(fs) && (di != NONE ==> 0 <= di < NR_INODE && Linked(fs.inodes[di]))
    modifies fs
    ensures Calm(fs) && Dropped(old(fs.inodes), fs.inodes, di)
    ensures fs.supers == old(fs.supers) && HoldsKept(old(fs.blocks), fs.blocks)
    ensures fs.lastInode == old(fs.lastInode) && fs.files == old(fs.files) && fs.rootDev == old(fs.rootDev)
    ensures di == NONE ==> err == -ENOENT && fs.inodes == old(fs.inodes) && fs.blocks == old(fs.blocks)
    ensures di != NONE ==> PutKeeps(old(fs.blocks), fs.blocks, old(fs.supers), old(fs.inodes), di)
    ensures di != NONE ==> (err == 0 <==> IsBlk(old(fs.inodes[di].d.mode))) && (err != 0 ==> err == -EPERM)
    ensures err == 0 ==> dev == old(fs.inodes[di].d.zone[0]) as int
  {
    dev := 0;
    if di == NONE {
      err := -ENOENT;
      return;
    }
    var i := fs.inodes[di];
    if !IsBlk(i.d.mode) {
      PutLinked(fs, di, now);
      err := -EPERM;
      return;
    }
    dev := i.d.zone[0] as int;
    PutLinked(fs, di, now);
    err := 0;
  }

  /** `read_super(dev)` gives a superblock: `dev` is loaded, or a slot is free and `dev` can be loaded. */
  ghost predicate ReadsSuper(supers: seq<Super>, blocks: map<(int, int), Block>, dev: int)
  {
    dev != 0 && (SuperOf(supers, dev) != NONE || (SuperFrom(supers, 0, 0) != NONE && Loadable(blocks, dev)))
  }

  /** Nothing is mounted from `dev` yet. */
  ghost predicate NotMounted(supers: seq<Super>, dev: int)
  {
    SuperOf(supers, dev) == NONE || supers[SuperOf(supers, dev)].imount == NONE
  }

  /** The blocks after `read_super(dev)`: a superblock it loads into a free slot holds its bitmap blocks. */
  ghost function Loading(supers: seq<Super>, blocks: map<(int, int), Block>, dev: int): (r: map<(int, int), Block>)
  {
    if dev != 0 && SuperOf(supers, dev) == NONE && SuperFrom(supers, 0, 0) != NONE && Loadable(blocks, dev) &&
       (forall key :: key in blocks ==> |blocks[key].data| == BLOCK_SIZE)
    then Pinned(blocks, dev, MapCount(Loaded(blocks, dev).d))
    else blocks
  }

  /** `iget(dev, ROOT_INO)` after `read_super(dev)` can read the root inode if it is not cached. */
  ghost predicate RootFetchable(s: seq<MInode>, supers: seq<Super>, blocks: map<(int, int), Block>, dev: int)
  {
    SlotFrom(s, dev, ROOT_INO, 0) == NONE ==>
      (SuperOf(supers, dev) != NONE ==> ReachableIn(supers, blocks, Named(dev, ROOT_INO))) &&
      (SuperOf(supers, dev) == NONE && Loadable(blocks, dev) ==> RootReadable(blocks, dev))
  }

  /** The checks `sys_mount` makes on `dir` before `read_super`: held by the caller alone, not a root inode, a directory. */
  predicate Eligible(i: MInode)
  {
    i.count == 1 && i.num != ROOT_INO && IsDir(i.d.mode)
  }

  /**
   * Loading a superblock keeps every dirty inode writable: the slots
   * of other devices stay where they were, no block comes or goes, and
   * a dirty inode of `dev` means `dev` was loaded already.
   */
  lemma LoadKeepsSettled(s: seq<MInode>, sup0: seq<Super>, b0: map<(int, int), Block>,
                         sup1: seq<Super>, b1: map<(int, int), Block>, dev: int)
    requires Settled(s, sup0, b0) && SlotsKeptBut(sup0, sup1, dev) && BlocksKeptBut(b0, b1, dev)
    requires SuperOf(sup0, dev) != NONE ==> sup1 == sup0
    ensures Settled(s, sup1, b1)
  {
    forall k | 0 <= k < |s| && s[k].dirt
      ensures ReachableIn(sup1, b1, s[k])
    {
      var d := s[k].dev;
      if d != dev {
        SuperOfOthers(sup0, sup1, dev, d);
      }
    }
  }

  /** After `read_super` loaded `dev` into the free slot `k`, the root inode of `dev` is reachable. */
  lemma LoadedRootReachable(sup0: seq<Super>, b0: map<(int, int), Block>, k: nat, dev: int, b1: map<(int, int), Block>)
    requires k < |sup0| && sup0[k].dev == 0 && k == SuperFrom(sup0, 0, 0) && SuperOf(sup0, dev) == NONE
    requires Loadable(b0, dev) && RootReadable(b0, dev) && b1.Keys == b0.Keys
    requires forall key :: key in b0 ==> |b0[key].data| == BLOCK_SIZE
    ensures ReachableIn(sup0[k := Loaded(b0, dev)], b1, Named(dev, ROOT_INO))
  {
    LoadedSane(b0, dev);
    FillFreeSlot(sup0, k, Loaded(b0, dev), dev);
  }

  /**
   * The second half of `sys_mount`: `dir` is the slot `namei(dir_name)`
   * returned. It must be held by the caller alone, not be a root inode,
   * be a directory; the superblock `read_super(dev)` gives must exist
   * and not be mounted anywhere; and `dir` must not be a mount point
   * already. On success the superblock's `s_imount` is `dir`, its
   * `s_isup` the root inode of `dev` taken by `iget`, and `dir` is
   * marked as a mount point and dirty; both references stay until
   * `sys_umount`. Every failure drops the reference on `dir`; a
   * superblock that `read_super` loaded stays loaded.
   */
  method MountOn(fs: FileSystem, dir: int, dev: int, now: u32) returns (err: int)
    requires Calm(fs) && MountsOk(fs.inodes)
    requires dir != NONE ==> 0 <= dir < NR_INODE && Linked(fs.inodes[dir]) && fs.inodes[dir].dev != 0
    requires RootFetchable(fs.inodes, fs.supers, fs.blocks, dev)
    modifies fs
    ensures fs.Valid() && MountsOk(fs.inodes)
    ensures fs.files == old(fs.files) && fs.rootDev == old(fs.rootDev)
    ensures dir == NONE ==> err == -ENOENT && fs.inodes == old(fs.inodes) && fs.supers == old(fs.supers) &&
                            fs.blocks == old(fs.blocks)
    ensures dir != NONE ==>
              (err == 0 <==> Eligible(old(fs.inodes[dir])) && old(ReadsSuper(fs.supers, fs.blocks, dev)) &&
                             old(NotMounted(fs.supers, dev)) && !old(fs.inodes[dir].mount))
    ensures dir != NONE && !Eligible(old(fs.inodes[dir])) ==>
              fs.supers == old(fs.supers) && Dropped(old(fs.inodes), fs.inodes, dir) &&
              PutKeeps(old(fs.blocks), fs.blocks, old(fs.supers), old(fs.inodes), dir) &&
              (err == -EBUSY <==> old(fs.inodes[dir].count) != 1 || old(fs.inodes[dir].num) == ROOT_INO) &&
              (err != -EBUSY ==> err == -EPERM)
    ensures dir != NONE && Eligible(old(fs.inodes[dir])) && err != 0 ==>
              Dropped(old(fs.inodes), fs.inodes, dir) && SlotsKeptBut(old(fs.supers), fs.supers, dev) &&
              PutKeeps(old(Loading(fs.supers, fs.blocks, dev)), fs.blocks, fs.supers, old(fs.inodes), dir) &&
              (err == -EBUSY <==> !old(ReadsSuper(fs.supers, fs.blocks, dev)) || !old(NotMounted(fs.supers, dev))) &&
              (err != -EBUSY ==> err == -EPERM)
    ensures err == 0 ==> fs.blocks == old(Loading(fs.supers, fs.blocks, dev))
    ensures err == 0 ==> MountedOn(old(fs.supers), fs.supers, old(fs.inodes), fs.inodes, dir, dev)
  {
    if dir == NONE {
      return -ENOENT;
    }
    var i := fs.inodes[dir];
    if i.count != 1 || i.num == ROOT_INO {
      PutLinked(fs, dir, now);
      return -EBUSY;
    }
    if !IsDir(i.d.mode) {
      PutLinked(fs, dir, now);
      return -EPERM;
    }
    err := Attach(fs, dir, dev, now);
  }

  /**
   * `sys_mount` from `read_super` on, for a directory that passed the
   * first checks: a missing or mounted superblock gives -EBUSY, a
   * directory that is a mount point already -EPERM; otherwise the
   * superblock and the directory are linked.
   */
  method Attach(fs: FileSystem, dir: nat, dev: int, now: u32) returns (err: int)
    requires Calm(fs) && MountsOk(fs.inodes) && dir < NR_INODE && Linked(fs.inodes[dir])
    requires fs.inodes[dir].dev != 0 && Eligible(fs.inodes[dir])
    requires RootFetchable(fs.inodes, fs.supers, fs.blocks, dev)
    modifies fs
    ensures fs.Valid() && MountsOk(fs.inodes)
    ensures fs.files == old(fs.files) && fs.rootDev == old(fs.rootDev)
    ensures err == 0 <==> old(ReadsSuper(fs.supers, fs.blocks, dev)) && old(NotMounted(fs.supers, dev)) && !old(fs.inodes[dir].mount)
    ensures err != 0 ==> Dropped(old(fs.inodes), fs.inodes, dir) && SlotsKeptBut(old(fs.supers), fs.supers, dev) &&
                         (err == -EBUSY <==> !old(ReadsSuper(fs.supers, fs.blocks, dev)) || !old(NotMounted(fs.supers, dev))) &&
                         (err != -EBUSY ==> err == -EPERM)
    ensures err == 0 ==> fs.blocks == old(Loading(fs.supers, fs.blocks, dev))
    ensures err != 0 ==> PutKeeps(old(Loading(fs.supers, fs.blocks, dev)), fs.blocks, fs.supers, old(fs.inodes), dir)
    ensures err == 0 ==> MountedOn(old(fs.supers), fs.supers, old(fs.inodes), fs.inodes, dir, dev)
  {
    ghost var sup0 := fs.supers;
    var sb := ReadFor(fs, dev);
    ghost var sup1 := fs.supers;
    err := LinkRead(fs, dir, dev, sb, now);
    if err == 0 {
      ReadThenLink(sup0, sup1, fs.supers, old(fs.inodes), fs.inodes, dir, dev, sb);
    }
  }

  /**
   * The slots `sup` and inodes `ins` after `sys_mount` of `dev` on `dir`
   * succeeded from `sup0` and `ins0`: the slot holding `dev` (the one it
   * already had, else the first free one) records `dir` as `s_imount` and
   * a root inode of `dev` other than `dir` as `s_isup`; no other slot
   * changes; `dir` is a dirty mount point.
   */
  ghost predicate MountedOn(sup0: seq<Super>, sup: seq<Super>, ins0: seq<MInode>, ins: seq<MInode>, dir: int, dev: int)
  {
    var k := SuperOf(sup, dev);
    |sup0| == |sup| == NR_SUPER && |ins0| == |ins| == NR_INODE && 0 <= dir < NR_INODE &&
    k != NONE && sup[k].imount == dir &&
    ins[dir] == ins0[dir].(mount := true, dirt := true) &&
    (forall j :: 0 <= j < NR_SUPER && j != k ==> sup[j] == sup0[j]) &&
    (SuperOf(sup0, dev) != NONE ==> k == SuperOf(sup0, dev) && sup[k] == sup0[k].(isup := sup[k].isup, imount := dir)) &&
    (SuperOf(sup0, dev) == NONE ==> k == SuperFrom(sup0, 0, 0)) &&
    (sup[k].isup != NONE ==> 0 <= sup[k].isup < NR_INODE && sup[k].isup != dir &&
                             ins[sup[k].isup].dev == dev && ins[sup[k].isup].num == ROOT_INO)
  }

  /** `read_super` into `sup1`, then linking slot `sb` and `dir` into `sup2`, is a mount as `MountedOn` states. */
  lemma ReadThenLink(sup0: seq<Super>, sup1: seq<Super>, sup2: seq<Super>, ins0: seq<MInode>, ins2: seq<MInode>,
                     dir: nat, dev: int, sb: int)
    requires |sup0| == |sup1| == NR_SUPER && |ins0| == |ins2| == NR_INODE && dir < NR_INODE
    requires sb != NONE && sb == SuperOf(sup1, dev)
    requires SuperOf(sup0, dev) != NONE ==> sup1 == sup0
    requires SuperOf(sup0, dev) == NONE ==>
               sb == SuperFrom(sup0, 0, 0) && forall j :: 0 <= j < NR_SUPER && j != sb ==> sup1[j] == sup0[j]
    requires SuperOf(sup2, dev) == sb && sup2 == sup1[sb := sup1[sb].(isup := sup2[sb].isup, imount := dir)]
    requires ins2[dir] == ins0[dir].(mount := true, dirt := true)
    requires sup2[sb].isup != NONE ==> 0 <= sup2[sb].isup < NR_INODE && sup2[sb].isup != dir &&
                                       ins2[sup2[sb].isup].dev == dev && ins2[sup2[sb].isup].num == ROOT_INO
    ensures MountedOn(sup0, sup2, ins0, ins2, dir, dev)
  {
  }

  /**
   * `sys_mount` after `read_super(dev)` gave slot `sb` (NONE for none):
   * no superblock or a mounted one gives -EBUSY, a directory that is a
   * mount point already -EPERM, each dropping the reference on `dir`;
   * otherwise the superblock and the directory are linked.
   */
  method LinkRead(fs: FileSystem, dir: nat, dev: int, sb: int, now: u32) returns (err: int)
    requires Calm(fs) && MountsOk(fs.inodes) && dir < NR_INODE && Linked(fs.inodes[dir])
    requires fs.inodes[dir].dev != 0 && Eligible(fs.inodes[dir])
    requires sb != NONE ==> dev != 0 && sb == SuperOf(fs.supers, dev) &&
                            (SlotFrom(fs.inodes, dev, ROOT_INO, 0) == NONE ==> ReachableIn(fs.supers, fs.blocks, Named(dev, ROOT_INO)))
    modifies fs
    ensures fs.Valid() && MountsOk(fs.inodes)
    ensures fs.files == old(fs.files) && fs.rootDev == old(fs.rootDev)
    ensures err == 0 <==> sb != NONE && old(fs.supers[sb].imount) == NONE && !old(fs.inodes[dir].mount)
    ensures err != 0 ==> Dropped(old(fs.inodes), fs.inodes, dir) && fs.supers == old(fs.supers) &&
                         PutKeeps(old(fs.blocks), fs.blocks, fs.supers, old(fs.inodes), dir) &&
                         (err == -EBUSY <==> sb == NONE || old(fs.supers[sb].imount) != NONE) &&
                         (err != -EBUSY ==> err == -EPERM)
    ensures err == 0 ==>
              fs.blocks == old(fs.blocks) && SuperOf(fs.supers, dev) == sb &&
              fs.supers == old(fs.supers)[sb := old(fs.supers[sb]).(isup := fs.supers[sb].isup, imount := dir)] &&
              fs.inodes[dir] == old(fs.inodes[dir]).(mount := true, dirt := true) &&
              (fs.supers[sb].isup != NONE ==> 0 <= fs.supers[sb].isup < NR_INODE && fs.supers[sb].isup != dir &&
                                              fs.inodes[fs.supers[sb].isup].dev == dev &&
                                              fs.inodes[fs.supers[sb].isup].num == ROOT_INO)
  {
    if sb == NONE || fs.supers[sb].imount != NONE {
      PutLinked(fs, dir, now);
      return -EBUSY;
    }
    if fs.inodes[dir].mount {
      PutLinked(fs, dir, now);
      return -EPERM;
    }
    Link(fs, dir, dev, sb, now);
    return 0;
  }

  /**
   * `read_super(dev)` as `sys_mount` uses it: the slot holding `dev`,
   * or NONE when it cannot be read; the inodes stay as they are.
   */
  method ReadFor(fs: FileSystem, dev: int) returns (sb: int)
    requires Calm(fs) && RootFetchable(fs.inodes, fs.supers, fs.blocks, dev)
    modifies fs
    ensures Calm(fs) && fs.inodes == old(fs.inodes)
    ensures fs.files == old(fs.files) && fs.rootDev == old(fs.rootDev) && fs.lastInode == old(fs.lastInode)
    ensures SlotsKeptBut(old(fs.supers), fs.supers, dev) && fs.blocks.Keys == old(fs.blocks.Keys)
    ensures sb != NONE <==> old(ReadsSuper(fs.supers, fs.blocks, dev))
    ensures sb != NONE ==> sb == SuperOf(fs.supers, dev) && (fs.supers[sb].imount == NONE <==> old(NotMounted(fs.supers, dev)))
    ensures old(SuperOf(fs.supers, dev)) != NONE ==> fs.supers == old(fs.supers)
    ensures old(SuperOf(fs.supers, dev)) == NONE && sb != NONE ==>
              sb == old(SuperFrom(fs.supers, 0, 0)) && forall j :: 0 <= j < NR_SUPER && j != sb ==> fs.supers[j] == old(fs.supers[j])
    ensures sb != NONE && SlotFrom(fs.inodes, dev, ROOT_INO, 0) == NONE ==> ReachableIn(fs.supers, fs.blocks, Named(dev, ROOT_INO))
    ensures fs.blocks == old(Loading(fs.supers, fs.blocks, dev))
  {
    ghost var sup0, b0 := fs.supers, fs.blocks;
    sb := ReadSuper(fs, dev);
    LoadKeepsSettled(fs.inodes, sup0, b0, fs.supers, fs.blocks, dev);
    if sb != NONE && sup0 != fs.supers {
      LoadedSane(b0, dev);
      FillFreeSlot(sup0, sb, Loaded(b0, dev), dev);
      if SlotFrom(fs.inodes, dev, ROOT_INO, 0) == NONE {
        LoadedRootReachable(sup0, b0, sb, dev, fs.blocks);
      }
    }
  }

  /**
   * The end of `sys_mount`: `iget(dev, ROOT_INO)` becomes `s_isup`,
   * `dir` becomes `s_imount`, and `dir` is marked as a mount point and
   * dirty.
   */
  method Link(fs: FileSystem, dir: nat, dev: int, sb: nat, now: u32)
    requires fs.Valid() && Settled(fs.inodes, fs.supers, fs.blocks) && UnusedClean(fs.inodes) && MountsOk(fs.inodes)
    requires dir < NR_INODE && fs.inodes[dir].dev != 0 && Eligible(fs.inodes[dir]) && !fs.inodes[dir].mount
    requires dev != 0 && sb == SuperOf(fs.supers, dev) && sb != NONE && fs.supers[sb].imount == NONE
    requires SlotFrom(fs.inodes, dev, ROOT_INO, 0) == NONE ==> ReachableIn(fs.supers, fs.blocks, Named(dev, ROOT_INO))
    modifies fs
    ensures fs.Valid() && MountsOk(fs.inodes)
    ensures fs.files == old(fs.files) && fs.rootDev == old(fs.rootDev)
    ensures SuperOf(fs.supers, dev) == sb
    ensures fs.supers == old(fs.supers)[sb := old(fs.supers[sb]).(isup := fs.supers[sb].isup, imount := dir)]
    ensures fs.inodes[dir] == old(fs.inodes[dir]).(mount := true, dirt := true)
    ensures fs.blocks == old(fs.blocks)
    ensures var r := fs.supers[sb].isup;
            r != NONE ==> 0 <= r < NR_INODE && r != dir && fs.inodes[r].dev == dev && fs.inodes[r].num == ROOT_INO
  {
    assert Target(fs.inodes, fs.supers, dev, ROOT_INO) == (dev, ROOT_INO);
    var r := Iget(fs, dev, ROOT_INO);
    assert r != NONE ==> r != dir;
    Hook(fs, dir, dev, sb, r);
  }

  /** The assignments that end `sys_mount`: `s_isup`, `s_imount`, and the mount point flag. */
  method Hook(fs: FileSystem, dir: nat, dev: int, sb: nat, r: int)
    requires fs.Valid() && MountsOk(fs.inodes) && dir < NR_INODE && fs.inodes[dir].dev != 0
    requires fs.inodes[dir].num != ROOT_INO && sb == SuperOf(fs.supers, dev) && sb != NONE
    requires r != NONE ==> 0 <= r < NR_INODE && r != dir
    modifies fs
    ensures fs.Valid() && MountsOk(fs.inodes)
    ensures fs.files == old(fs.files) && fs.rootDev == old(fs.rootDev)
    ensures SuperOf(fs.supers, dev) == sb
    ensures fs.supers == old(fs.supers)[sb := old(fs.supers[sb]).(isup := r, imount := dir)]
    ensures fs.inodes == old(fs.inodes)[dir := old(fs.inodes[dir]).(mount := true, dirt := true)]
    ensures fs.blocks == old(fs.blocks) && fs.lastInode == old(fs.lastInode)
  {
    SuperOfKept(fs.supers, sb, fs.supers[sb].(isup := r, imount := dir), dev);
    fs.supers := fs.supers[sb := fs.supers[sb].(isup := r, imount := dir)];
    fs.inodes := fs.inodes[dir := fs.inodes[dir].(mount := true, dirt := true)];
  }

  // ---------------------------------------------------------------------
  // sys_umount
  // ---------------------------------------------------------------------

  /** The superblock slot `sys_umount` looks at for inode `i`: the device a block-special file names, else the device of `i`. */
  ghost function UmountSlot(supers: seq<Super>, i: MInode): (sb: int)
    requires i.Valid()
    ensures sb == NONE || 0 <= sb < |supers|
  {
    if IsBlk(i.d.mode) then SuperOf(supers, i.d.zone[0] as int) else SuperOf(supers, i.dev)
  }

  /**
   * Slot `x`, holding `i`, gets past the checks of `sys_umount`: a block
   * special file naming a mounted device, or the root directory of a
   * mounted device.
   */
  ghost predicate Unmountable(supers: seq<Super>, x: int, i: MInode)
    requires i.Valid()
  {
    var sb := UmountSlot(supers, i);
    (IsBlk(i.d.mode) || IsDir(i.d.mode)) && sb != NONE && supers[sb].imount != NONE &&
    (IsBlk(i.d.mode) || x == supers[sb].isup)
  }

  /** The error `sys_umount` gives for a slot it refuses. */
  ghost function Refusal(supers: seq<Super>, i: MInode): (r: int)
    requires i.Valid()
  {
    var sb := UmountSlot(supers, i);
    if !IsBlk(i.d.mode) && !IsDir(i.d.mode) then -ENOTBLK
    else if sb == NONE || supers[sb].imount == NONE then -ENOENT
    else -ENOTBLK
  }

  /** The references `sys_umount` gives up before its scan: the named inode, and for a directory the mount point too. */
  ghost function Drops(supers: seq<Super>, x: int, i: MInode): (r: multiset<int>)
    requires i.Valid() && Unmountable(supers, x, i)
  {
    if IsBlk(i.d.mode) then multiset{x} else multiset{x, supers[UmountSlot(supers, i)].imount}
  }

  /**
   * A mounted superblock as `sys_mount` (or `mount_root`, for the root
   * device) left it: the mount point is a linked slot and, off the root
   * device, marked as one; the root inode of the device is a linked slot.
   */
  ghost predicate MountedOk(s: seq<MInode>, sup: Super, rootDev: int)
  {
    0 <= sup.imount < |s| && Linked(s[sup.imount]) &&
    (sup.dev != rootDev ==>
       s[sup.imount].mount && IsDir(s[sup.imount].d.mode) &&
       0 <= sup.isup < |s| && Linked(s[sup.isup]) && IsDir(s[sup.isup].d.mode) &&
       s[sup.isup].dev == sup.dev && s[sup.isup].num == ROOT_INO)
  }

  /**
   * What `sys_umount` needs of its table to run without halting: the
   * slot `namei` gave is linked and, when it names a mounted device, that
   * superblock is as `sys_mount` left it, its bitmap buffers held, and
   * every reference it gives up before its scan is one of several.
   */
  ghost predicate CanUmount(fs: FileSystem, x: int)
    reads fs
    requires fs.Valid()
  {
    x != NONE ==>
      0 <= x < NR_INODE && Linked(fs.inodes[x]) &&
      (Unmountable(fs.supers, x, fs.inodes[x]) ==>
         var sup := fs.supers[UmountSlot(fs.supers, fs.inodes[x])];
         MountedOk(fs.inodes, sup, fs.rootDev) && PinsHeld(fs.blocks, sup.dev, MapCount(sup.d)) &&
         (!IsBlk(fs.inodes[x].d.mode) ==> fs.inodes[x].count >= 2 && fs.inodes[sup.imount].count >= 2))
  }

  /** The scan of `sys_umount` finds slot `i` of `dev` in use: the root inode held more than once, any other inode held at all. */
  predicate BusyAt(i: MInode, dev: int)
  {
    i.dev == dev && if i.num == ROOT_INO then i.count > 1 else i.count != 0
  }

  /**
   * `sys_umount(dev_name)` on the slot `namei` gave (NONE for none): a
   * device not mounted, or a directory that is not the root of one, is
   * refused; the root device, and a device with an inode in use, give
   * -EBUSY; otherwise the superblock is detached from its mount point,
   * released, and the inodes written back.
   */
  method Umount(fs: FileSystem, x: int, now: u32) returns (err: int)
    requires Calm(fs) && MountsOk(fs.inodes) && CachedOnce(fs.inodes) && OncePerDevice(fs.supers)
    requires CanUmount(fs, x)
    modifies fs
    ensures fs.Valid() && fs.files == old(fs.files) && fs.rootDev == old(fs.rootDev)
    ensures x == NONE ==> err == -ENOENT && fs.inodes == old(fs.inodes) && fs.supers == old(fs.supers)
    ensures x != NONE && !old(Unmountable(fs.supers, x, fs.inodes[x])) ==>
              err == old(Refusal(fs.supers, fs.inodes[x])) && Dropped(old(fs.inodes), fs.inodes, x) &&
              fs.supers == old(fs.supers)
    ensures x != NONE && old(Unmountable(fs.supers, x, fs.inodes[x])) ==>
              var sb := old(UmountSlot(fs.supers, fs.inodes[x]));
              var dev := old(fs.supers[sb].dev);
              var drops := old(Drops(fs.supers, x, fs.inodes[x]));
              (err == -EBUSY || err == 0) &&
              (dev == fs.rootDev ==> err == -EBUSY) &&
              (err == -EBUSY ==> fs.supers == old(fs.supers) && Lost(old(fs.inodes), fs.inodes, drops) &&
                                 (dev != fs.rootDev ==> exists k :: 0 <= k < NR_INODE && BusyAt(fs.inodes[k], dev)) &&
                                 (dev != fs.rootDev ==> MountedOk(fs.inodes, fs.supers[sb], fs.rootDev))) &&
              (err == 0 ==>
                 var m, u := old(fs.supers[sb].imount), old(fs.supers[sb].isup);
                 fs.supers == old(fs.supers)[sb := old(fs.supers[sb]).(isup := NONE, imount := NONE, dev := 0)] &&
                 Lost(old(fs.inodes)[m := old(fs.inodes[m]).(mount := false)], fs.inodes, drops + multiset{m, u}) &&
                 (forall k :: 0 <= k < NR_INODE && fs.inodes[k].dev == dev ==> fs.inodes[k].count == 0) &&
                 (forall k :: 0 <= k < NR_INODE ==> !NeedsSync(fs.inodes[k])))
    ensures x == NONE ==> fs.blocks == old(fs.blocks)
    ensures x != NONE && !old(Unmountable(fs.supers, x, fs.inodes[x])) ==>
              PutKeeps(old(fs.blocks), fs.blocks, old(fs.supers), old(fs.inodes), x)
    ensures x != NONE && old(Unmountable(fs.supers, x, fs.inodes[x])) ==>
              var sb := old(UmountSlot(fs.supers, fs.inodes[x]));
              (err == -EBUSY ==> RecordsOnly(old(fs.blocks), fs.blocks, old(fs.supers))) &&
              (err == 0 ==> Unmounted(old(fs.blocks), fs.blocks, old(fs.supers), old(fs.supers[sb])))
  {
    if x == NONE {
      return -ENOENT;
    }
    var sb;
    err, sb := Release(fs, x, now);
    if err != 0 {
      return;
    }
    ghost var s1, b1 := fs.inodes, fs.blocks;
    ghost var m, u := fs.supers[sb].imount, fs.supers[sb].isup;
    err := Finish(fs, sb, now);
    if err == 0 {
      RecordsThenUnmounted(old(fs.blocks), b1, fs.blocks, old(fs.supers), old(fs.supers[sb]));
      LostThenUnmarked(old(fs.inodes), s1, fs.inodes, m, old(Drops(fs.supers, x, fs.inodes[x])), multiset{m, u});
    }
  }

  /**
   * `sys_umount` on the root directory of a mounted device gives up a
   * reference on the mount point it assumes the lookup took. When the
   * name was `.` with the working directory on that root, the lookup
   * did not cross the mount point, and a mount point held once is left
   * unused while its superblock still names it.
   */
  lemma DotStrandsMountPoint(s0: seq<MInode>, s1: seq<MInode>, sup: Super, rootDev: int)
    requires MountedOk(s0, sup, rootDev) && sup.dev != rootDev && s0[sup.imount].count == 1
    requires Lost(s0, s1, multiset{sup.isup, sup.imount})
    ensures s1[sup.imount].count == 0 && s1[sup.imount].mount && !MountedOk(s1, sup, rootDev)
  {
    assert multiset{sup.isup, sup.imount}[sup.imount] >= 1;
  }

  /** Drops, then the mount mark of slot `m` cleared and more drops, add up to the mark cleared first and all the drops. */
  lemma LostThenUnmarked(s0: seq<MInode>, s1: seq<MInode>, s2: seq<MInode>, m: nat, a: multiset<int>, b: multiset<int>)
    requires m < |s0| && Lost(s0, s1, a) && Lost(s1[m := s1[m].(mount := false)], s2, b)
    ensures Lost(s0[m := s0[m].(mount := false)], s2, a + b)
  {
    LostThen(s0[m := s0[m].(mount := false)], s1[m := s1[m].(mount := false)], s2, a, b);
  }

  /**
   * `sys_umount` after its checks, on the mounted superblock in slot
   * `sb`: the root device, and a device with an inode in use, give
   * -EBUSY and change nothing; otherwise the superblock is detached.
   */
  method Finish(fs: FileSystem, sb: nat, now: u32) returns (err: int)
    requires Calm(fs) && MountsOk(fs.inodes) && CachedOnce(fs.inodes) && OncePerDevice(fs.supers)
    requires sb < NR_SUPER && fs.supers[sb].dev != 0 && fs.supers[sb].imount != NONE
    requires fs.supers[sb].dev != fs.rootDev ==>
               MountedOk(fs.inodes, fs.supers[sb], fs.rootDev) && PinsHeld(fs.blocks, fs.supers[sb].dev, MapCount(fs.supers[sb].d))
    modifies fs
    ensures fs.Valid() && fs.files == old(fs.files) && fs.rootDev == old(fs.rootDev)
    ensures err == -EBUSY || err == 0
    ensures old(fs.supers[sb].dev) == fs.rootDev ==> err == -EBUSY
    ensures err == -EBUSY ==>
              fs.supers == old(fs.supers) && fs.inodes == old(fs.inodes) && fs.blocks == old(fs.blocks) &&
              (old(fs.supers[sb].dev) != fs.rootDev ==> exists k :: 0 <= k < NR_INODE && BusyAt(fs.inodes[k], old(fs.supers[sb].dev)))
    ensures err == 0 ==>
              var m, u := old(fs.supers[sb].imount), old(fs.supers[sb].isup);
              fs.supers == old(fs.supers)[sb := old(fs.supers[sb]).(isup := NONE, imount := NONE, dev := 0)] &&
              Lost(old(fs.inodes)[m := old(fs.inodes[m]).(mount := false)], fs.inodes, multiset{m, u}) &&
              (forall k :: 0 <= k < NR_INODE && fs.inodes[k].dev == old(fs.supers[sb].dev) ==> fs.inodes[k].count == 0) &&
              (forall k :: 0 <= k < NR_INODE ==> !NeedsSync(fs.inodes[k])) &&
              Unmounted(old(fs.blocks), fs.blocks, old(fs.supers), old(fs.supers[sb]))
  {
    var dev := fs.supers[sb].dev;
    if dev == fs.rootDev {
      PutSuper(fs, dev);
      return -EBUSY;
    }
    var busy := Scan(fs, dev);
    if busy {
      return -EBUSY;
    }
    Detach(fs, sb, now);
    return 0;
  }

  /**
   * The checks of `sys_umount` up to its scan: the references to the
   * named slot and, for a directory, to the mount point are given up,
   * and `sb` is the superblock slot to work on.
   */
  method Release(fs: FileSystem, x: nat, now: u32) returns (err: int, sb: int)
    requires Calm(fs) && MountsOk(fs.inodes) && CanUmount(fs, x) && x < NR_INODE
    modifies fs
    ensures Calm(fs) && MountsOk(fs.inodes) && fs.supers == old(fs.supers) && HoldsKept(old(fs.blocks), fs.blocks)
    ensures old(CachedOnce(fs.inodes)) ==> CachedOnce(fs.inodes)
    ensures fs.files == old(fs.files) && fs.rootDev == old(fs.rootDev) && fs.lastInode == old(fs.lastInode)
    ensures err == 0 <==> old(Unmountable(fs.supers, x, fs.inodes[x]))
    ensures err != 0 ==> err == old(Refusal(fs.supers, fs.inodes[x])) && Dropped(old(fs.inodes), fs.inodes, x)
    ensures err != 0 ==> PutKeeps(old(fs.blocks), fs.blocks, old(fs.supers), old(fs.inodes), x)
    ensures RecordsOnly(old(fs.blocks), fs.blocks, fs.supers)
    ensures err == 0 ==> sb == old(UmountSlot(fs.supers, fs.inodes[x])) && 0 <= sb < NR_SUPER &&
                         Lost(old(fs.inodes), fs.inodes, old(Drops(fs.supers, x, fs.inodes[x])))
  {
    var i := fs.inodes[x];
    if !IsBlk(i.d.mode) && !IsDir(i.d.mode) {
      PutLinked(fs, x, now);
      return -ENOTBLK, NONE;
    }
    if IsBlk(i.d.mode) {
      sb := fs.GetSuper(i.d.zone[0] as int);
      if sb == NONE || fs.supers[sb].imount == NONE {
        PutLinked(fs, x, now);
        return -ENOENT, NONE;
      }
      PutLinked(fs, x, now);
      return 0, sb;
    }
    sb := fs.GetSuper(i.dev);
    if sb == NONE || fs.supers[sb].imount == NONE {
      PutLinked(fs, x, now);
      return -ENOENT, NONE;
    }
    if x != fs.supers[sb].isup {
      PutLinked(fs, x, now);
      return -ENOTBLK, NONE;
    }
    ReleaseRoot(fs, x, sb, now);
    return 0, sb;
  }

  /** The references `sys_umount` gives up on the root directory `x` of the device in slot `sb`: the mount point's, then `x`'s. */
  method ReleaseRoot(fs: FileSystem, x: nat, sb: nat, now: u32)
    requires Calm(fs) && MountsOk(fs.inodes) && x < NR_INODE && sb < NR_SUPER
    requires 0 <= fs.supers[sb].imount < NR_INODE && Linked(fs.inodes[fs.supers[sb].imount])
    requires Linked(fs.inodes[x]) && (fs.supers[sb].imount == x ==> fs.inodes[x].count >= 2)
    modifies fs
    ensures Calm(fs) && MountsOk(fs.inodes) && fs.supers == old(fs.supers) && RecordsOnly(old(fs.blocks), fs.blocks, fs.supers)
    ensures HoldsKept(old(fs.blocks), fs.blocks)
    ensures old(CachedOnce(fs.inodes)) ==> CachedOnce(fs.inodes)
    ensures fs.files == old(fs.files) && fs.rootDev == old(fs.rootDev) && fs.lastInode == old(fs.lastInode)
    ensures Lost(old(fs.inodes), fs.inodes, multiset{x, old(fs.supers[sb].imount)})
  {
    ghost var s0, b0 := fs.inodes, fs.blocks;
    var m := fs.supers[sb].imount;
    PutLinked(fs, m, now);
    ghost var s1, b1 := fs.inodes, fs.blocks;
    PutLinked(fs, x, now);
    RecordsOnlyThen(b0, b1, fs.blocks, fs.supers);
    LostThen(s0, s1, fs.inodes, multiset{m}, multiset{x});
    assert multiset{m} + multiset{x} == multiset{x, m};
  }

  /** The scan of `sys_umount`: whether some slot of `dev` is in use. */
  method Scan(fs: FileSystem, dev: int) returns (busy: bool)
    requires fs.Valid()
    ensures busy <==> exists k :: 0 <= k < NR_INODE && BusyAt(fs.inodes[k], dev)
  {
    var k := 0;
    while k < NR_INODE
      invariant 0 <= k <= NR_INODE
      invariant forall j :: 0 <= j < k ==> !BusyAt(fs.inodes[j], dev)
    {
      if BusyAt(fs.inodes[k], dev) {
        return true;
      }
      k := k + 1;
    }
    return false;
  }

  /**
   * The end of `sys_umount` for a device off the root with nothing in
   * use: the mount point is unmarked and released, the root inode
   * released, the superblock freed, and the inodes written back.
   */
  method Detach(fs: FileSystem, sb: nat, now: u32)
    requires Calm(fs) && MountsOk(fs.inodes) && CachedOnce(fs.inodes) && OncePerDevice(fs.supers)
    requires sb < NR_SUPER && fs.supers[sb].dev != 0 && fs.supers[sb].dev != fs.rootDev
    requires MountedOk(fs.inodes, fs.supers[sb], fs.rootDev)
    requires PinsHeld(fs.blocks, fs.supers[sb].dev, MapCount(fs.supers[sb].d))
    requires forall k :: 0 <= k < NR_INODE ==> !BusyAt(fs.inodes[k], fs.supers[sb].dev)
    modifies fs
    ensures fs.Valid() && fs.files == old(fs.files) && fs.rootDev == old(fs.rootDev)
    ensures fs.supers == old(fs.supers)[sb := old(fs.supers[sb]).(isup := NONE, imount := NONE, dev := 0)]
    ensures var m, u := old(fs.supers[sb].imount), old(fs.supers[sb].isup);
            Lost(old(fs.inodes)[m := old(fs.inodes[m]).(mount := false)], fs.inodes, multiset{m, u})
    ensures forall k :: 0 <= k < NR_INODE && fs.inodes[k].dev == old(fs.supers[sb].dev) ==> fs.inodes[k].count == 0
    ensures forall k :: 0 <= k < NR_INODE ==> !NeedsSync(fs.inodes[k])
    ensures Unmounted(old(fs.blocks), fs.blocks, old(fs.supers), old(fs.supers[sb]))
  {
    ghost var s0, sup0, b0 := fs.inodes, fs.supers, fs.blocks;
    var dev := fs.supers[sb].dev;
    ghost var m, u := fs.supers[sb].imount, fs.supers[sb].isup;
    Unlink(fs, sb, now);
    ghost var s2, sup2, b2 := fs.inodes, fs.supers, fs.blocks;
    Free(fs, sb, dev);
    assert sup2 == sup0[sb := sup2[sb]] && sup2[sb] == sup0[sb].(isup := NONE, imount := NONE);
    UnmountedKept(b2, fs.blocks, sup0, sb, sup2[sb]);
    assert SuperOf(sup0, dev) == sb by {
      var r := SuperOf(sup0, dev);
      assert r != NONE;
    }
    RecordsThenUnmounted(b0, b2, fs.blocks, sup0, sup0[sb]);
    LostCleaned(s0[m := s0[m].(mount := false)], s2, fs.inodes, multiset{m, u});
  }

  /**
   * The releases of `sys_umount` before `put_super`: the mount point is
   * unmarked and released, then the device's root inode is released,
   * after which no inode of the device is in use.
   */
  method Unlink(fs: FileSystem, sb: nat, now: u32)
    requires Calm(fs) && MountsOk(fs.inodes) && CachedOnce(fs.inodes) && OncePerDevice(fs.supers)
    requires sb < NR_SUPER && fs.supers[sb].dev != 0 && fs.supers[sb].dev != fs.rootDev
    requires MountedOk(fs.inodes, fs.supers[sb], fs.rootDev)
    requires PinsHeld(fs.blocks, fs.supers[sb].dev, MapCount(fs.supers[sb].d))
    requires forall k :: 0 <= k < NR_INODE ==> !BusyAt(fs.inodes[k], fs.supers[sb].dev)
    modifies fs
    ensures Calm(fs) && MountsOk(fs.inodes) && CachedOnce(fs.inodes) && HoldsKept(old(fs.blocks), fs.blocks)
    ensures fs.files == old(fs.files) && fs.rootDev == old(fs.rootDev)
    ensures fs.supers == old(fs.supers)[sb := old(fs.supers[sb]).(isup := NONE, imount := NONE)]
    ensures RecordsOnly(old(fs.blocks), fs.blocks, old(fs.supers))
    ensures var m, u := old(fs.supers[sb].imount), old(fs.supers[sb].isup);
            Lost(old(fs.inodes)[m := old(fs.inodes[m]).(mount := false)], fs.inodes, multiset{m, u})
    ensures forall k :: 0 <= k < NR_INODE && fs.inodes[k].dev == old(fs.supers[sb].dev) ==> fs.inodes[k].count == 0
  {
    ghost var s0, sup0, b0 := fs.inodes, fs.supers, fs.blocks;
    var dev := fs.supers[sb].dev;
    var m, u := fs.supers[sb].imount, fs.supers[sb].isup;
    Unhook(fs, sb, now);
    ghost var s1, sup1, b1 := fs.inodes, fs.supers, fs.blocks;
    DropRoot(fs, sb, now);
    RecordsKept(b1, fs.blocks, sup0, sb, sup1[sb]);
    RecordsOnlyThen(b0, b1, fs.blocks, sup0);
    LostThen(s0[m := s0[m].(mount := false)], s1, fs.inodes, multiset{m}, multiset{u});
    assert multiset{m} + multiset{u} == multiset{m, u};
    ghost var s2 := fs.inodes;
    forall k | 0 <= k < NR_INODE && s2[k].dev == dev
      ensures s2[k].count == 0
    {
      assert !BusyAt(s0[k], dev);
      if k == u {
      } else if k == m {
        assert false;
      } else {
        assert s0[k].num != ROOT_INO;
      }
    }
  }

  /** Writing the inodes back keeps a drop a drop. */
  lemma LostCleaned(s0: seq<MInode>, s1: seq<MInode>, s2: seq<MInode>, drops: multiset<int>)
    requires Lost(s0, s1, drops) && |s2| == |s1|
    requires forall k :: 0 <= k < |s1| ==> s2[k] == Cleaned(s1[k])
    ensures Lost(s0, s2, drops)
  {
    forall k | 0 <= k < |s0|
      ensures s2[k] == s0[k].(count := s2[k].count, dirt := s2[k].dirt)
    {
      assert s1[k] == s0[k].(count := s1[k].count, dirt := s1[k].dirt);
    }
  }

  /** Changing the mount fields of a superblock slot keeps the inode-table blocks where they are. */
  lemma InTableKept(supers: seq<Super>, sb: nat, t: Super, key: (int, int))
    requires sb < |supers| && t.dev == supers[sb].dev && t.d == supers[sb].d
    ensures InTable(supers[sb := t], key) == InTable(supers, key)
  {
    SuperOfKept(supers, sb, t, key.0);
  }

  /** ... and so what writes only inode records under the new table writes only inode records under the old one. */
  lemma RecordsKept(b0: map<(int, int), Block>, b1: map<(int, int), Block>, supers: seq<Super>, sb: nat, t: Super)
    requires sb < |supers| && t.dev == supers[sb].dev && t.d == supers[sb].d
    requires RecordsOnly(b0, b1, supers[sb := t])
    ensures RecordsOnly(b0, b1, supers)
  {
    forall key | key in b0
      ensures InTable(supers[sb := t], key) == InTable(supers, key)
    {
      InTableKept(supers, sb, t, key);
    }
  }

  /** ... and the release of a slot whose mount fields were cleared is the release of the slot as it was. */
  lemma UnmountedKept(b0: map<(int, int), Block>, b1: map<(int, int), Block>, supers: seq<Super>, sb: nat, t: Super)
    requires sb < |supers| && supers[sb].Valid() && t == supers[sb].(isup := t.isup, imount := t.imount)
    requires Unmounted(b0, b1, supers[sb := t], t)
    ensures Unmounted(b0, b1, supers, supers[sb])
  {
    assert Flushed(b0, t) == Flushed(b0, supers[sb]);
    forall key | key in b0
      ensures InTable(supers[sb := t], key) == InTable(supers, key)
    {
      InTableKept(supers, sb, t, key);
    }
  }

  /** Changing the mount fields of a superblock slot keeps every dirty inode writable. */
  lemma MountFieldsKeepSettled(s: seq<MInode>, supers: seq<Super>, b: map<(int, int), Block>, sb: nat, t: Super)
    requires Settled(s, supers, b) && sb < |supers| && t.dev == supers[sb].dev && t.d == supers[sb].d
    ensures Settled(s, supers[sb := t], b)
  {
    forall dev | true
      ensures SuperOf(supers[sb := t], dev) == SuperOf(supers, dev)
    {
      SuperOfKept(supers, sb, t, dev);
    }
  }

  /** The first lines of the end of `sys_umount`: the mount point is unmarked, released and forgotten. */
  method Unhook(fs: FileSystem, sb: nat, now: u32)
    requires Calm(fs) && MountsOk(fs.inodes) && sb < NR_SUPER
    requires 0 <= fs.supers[sb].imount < NR_INODE && Linked(fs.inodes[fs.supers[sb].imount])
    modifies fs
    ensures Calm(fs) && MountsOk(fs.inodes) && HoldsKept(old(fs.blocks), fs.blocks)
    ensures old(CachedOnce(fs.inodes)) ==> CachedOnce(fs.inodes)
    ensures fs.files == old(fs.files) && fs.rootDev == old(fs.rootDev)
    ensures fs.supers == old(fs.supers)[sb := old(fs.supers[sb]).(imount := NONE)]
    ensures RecordsOnly(old(fs.blocks), fs.blocks, old(fs.supers))
    ensures var m := old(fs.supers[sb].imount);
            Dropped(old(fs.inodes)[m := old(fs.inodes[m]).(mount := false)], fs.inodes, m)
  {
    var m := fs.supers[sb].imount;
    ghost var s0 := fs.inodes;
    fs.inodes := fs.inodes[m := fs.inodes[m].(mount := false)];
    assert CachedOnce(s0) ==> CachedOnce(fs.inodes) by {
      assert forall k :: 0 <= k < NR_INODE ==> fs.inodes[k].dev == s0[k].dev && fs.inodes[k].num == s0[k].num;
    }
    PutLinked(fs, m, now);
    MountFieldsKeepSettled(fs.inodes, fs.supers, fs.blocks, sb, fs.supers[sb].(imount := NONE));
    fs.supers := fs.supers[sb := fs.supers[sb].(imount := NONE)];
  }

  /** The next lines: the root inode of the device is released and forgotten. */
  method DropRoot(fs: FileSystem, sb: nat, now: u32)
    requires Calm(fs) && MountsOk(fs.inodes) && sb < NR_SUPER
    requires 0 <= fs.supers[sb].isup < NR_INODE && Linked(fs.inodes[fs.supers[sb].isup])
    modifies fs
    ensures Calm(fs) && MountsOk(fs.inodes) && HoldsKept(old(fs.blocks), fs.blocks)
    ensures old(CachedOnce(fs.inodes)) ==> CachedOnce(fs.inodes)
    ensures fs.files == old(fs.files) && fs.rootDev == old(fs.rootDev)
    ensures fs.supers == old(fs.supers)[sb := old(fs.supers[sb]).(isup := NONE)]
    ensures RecordsOnly(old(fs.blocks), fs.blocks, old(fs.supers))
    ensures Dropped(old(fs.inodes), fs.inodes, old(fs.supers[sb].isup))
  {
    PutLinked(fs, fs.supers[sb].isup, now);
    MountFieldsKeepSettled(fs.inodes, fs.supers, fs.blocks, sb, fs.supers[sb].(isup := NONE));
    fs.supers := fs.supers[sb := fs.supers[sb].(isup := NONE)];
  }

  /** The last lines: `put_super(dev)` frees the slot, and `sync_dev(dev)` writes the inodes back. */
  method Free(fs: FileSystem, sb: nat, dev: int)
    requires fs.Valid() && Settled(fs.inodes, fs.supers, fs.blocks) && UnusedClean(fs.inodes) && OncePerDevice(fs.supers)
    requires sb < NR_SUPER && fs.supers[sb].dev == dev && dev != 0 && dev != fs.rootDev
    requires fs.supers[sb].imount == NONE && PinsHeld(fs.blocks, dev, MapCount(fs.supers[sb].d))
    requires forall k :: 0 <= k < NR_INODE && fs.inodes[k].dev == dev ==> fs.inodes[k].count == 0
    modifies fs
    ensures fs.Valid() && fs.files == old(fs.files) && fs.rootDev == old(fs.rootDev)
    ensures fs.supers == old(fs.supers)[sb := old(fs.supers[sb]).(dev := 0)]
    ensures forall k :: 0 <= k < NR_INODE ==> fs.inodes[k] == Cleaned(old(fs.inodes[k]))
    ensures forall k :: 0 <= k < NR_INODE ==> !NeedsSync(fs.inodes[k])
    ensures Unmounted(old(fs.blocks), fs.blocks, old(fs.supers), old(fs.supers[sb]))
  {
    ghost var sup0, b0 := fs.supers, fs.blocks;
    assert SuperOf(sup0, dev) == sb by {
      var r := SuperOf(sup0, dev);
      assert r != NONE;
    }
    PutSuper(fs, dev);
    forall k | 0 <= k < NR_INODE && NeedsSync(fs.inodes[k])
      ensures ReachableIn(fs.supers, fs.blocks, fs.inodes[k])
    {
      var i := fs.inodes[k];
      assert ReachableIn(sup0, b0, i);
      PutForgets(sup0, fs.rootDev, dev, i.dev);
      assert sup0[SuperOf(sup0, i.dev)].dev == i.dev;
    }
    ghost var b1 := fs.blocks;
    fs.SyncInodes();
    SyncedRecordsOnly(b1, fs.supers, old(fs.inodes), NR_INODE);
    FreedUnmounted(b0, b1, fs.blocks, sup0, fs.supers, sb, fs.rootDev);
  }

  /**
   * `b1` is `b0` after `sys_umount` released superblock `s`: each bitmap
   * block of `s` holds the bitmap the record held and one reference
   * less; any other block keeps its references and is unchanged unless
   * it is an inode-table block of a device loaded in `supers`.
   */
  ghost predicate Unmounted(b0: map<(int, int), Block>, b1: map<(int, int), Block>, supers: seq<Super>, s: Super)
    requires s.Valid()
  {
    b1.Keys == b0.Keys &&
    forall key :: key in b0 ==>
      if IsMapBlock(key, s.dev, MapCount(s.d)) then
        b0[key].count >= 1 && b1[key] == Flushed(b0, s)[key].(count := b0[key].count - 1)
      else b1[key].count == b0[key].count && (b1[key] == b0[key] || InTable(supers, key))
  }

  /** `put_super` followed by `sync_inodes`: the bitmaps are written back and released, and then only inode records written. */
  lemma FreedUnmounted(b0: map<(int, int), Block>, b1: map<(int, int), Block>, b2: map<(int, int), Block>,
                       sup0: seq<Super>, sup1: seq<Super>, sb: nat, rootDev: int)
    requires sb < |sup0| && sup0[sb].Valid() && OncePerDevice(sup0)
    requires PutFrees(sup0, rootDev, sup0[sb].dev) && SuperOf(sup0, sup0[sb].dev) == sb
    requires PinsHeld(Flushed(b0, sup0[sb]), sup0[sb].dev, MapCount(sup0[sb].d))
    requires b1 == Unpinned(Flushed(b0, sup0[sb]), sup0[sb].dev, MapCount(sup0[sb].d))
    requires sup1 == sup0[sb := sup0[sb].(dev := 0)] && RecordsOnly(b1, b2, sup1)
    ensures Unmounted(b0, b2, sup0, sup0[sb])
  {
    var s := sup0[sb];
    var n := MapCount(s.d);
    forall key | key in b0
      ensures if IsMapBlock(key, s.dev, n) then b0[key].count >= 1 && b2[key] == Flushed(b0, s)[key].(count := b0[key].count - 1)
              else b2[key].count == b0[key].count && (b2[key] == b0[key] || InTable(sup0, key))
    {
      PutForgets(sup0, rootDev, s.dev, key.0);
      if !IsMapBlock(key, s.dev, n) && b2[key] != b1[key] {
        assert InTable(sup1, key);
        assert key.0 != s.dev;
        assert sup1[SuperOf(sup1, key.0)] == sup0[SuperOf(sup0, key.0)];
      }
    }
  }

  /** Writes of inode records before the release of `s` leave its bitmap blocks alone. */
  lemma RecordsThenUnmounted(b0: map<(int, int), Block>, b1: map<(int, int), Block>, b2: map<(int, int), Block>,
                             supers: seq<Super>, s: Super)
    requires s.Valid() && SuperOf(supers, s.dev) != NONE && supers[SuperOf(supers, s.dev)].d == s.d
    requires RecordsOnly(b0, b1, supers) && Unmounted(b1, b2, supers, s)
    ensures Unmounted(b0, b2, supers, s)
  {
    forall key | key in b0 && IsMapBlock(key, s.dev, MapCount(s.d))
      ensures b0[key].count >= 1 && b2[key] == Flushed(b0, s)[key].(count := b0[key].count - 1)
    {
      assert !InTable(supers, key);
      assert b1[key] == b0[key];
    }
  }
}
