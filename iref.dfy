/*
 * The reference protocol of fs/inode.c: `iget(dev, nr)` finds or loads
 * an inode and takes a reference on it, crossing a mount point to the
 * root of the device mounted there; `iput(inode)` drops a reference,
 * and the last reference to an inode without links truncates and frees
 * it.
 */
module Iref {
  import opened Layout
  import opened Records
  import opened Tables
  import opened Alloc
  import opened Truncate
  import opened Bmap
  import TruncateFacts

  /**
   * `sys_mount` never mounts on a root inode, so no slot marked as a
   * mount point holds inode `ROOT_INO`: crossing a mount point lands on
   * an inode that is not one.
   */
  ghost predicate MountsOk(s: seq<MInode>)
  {
    forall k :: 0 <= k < |s| && s[k].mount ==> s[k].num != ROOT_INO
  }

  /** Every unused dirty slot of `s` can be written back, as `get_empty_inode` may need to. */
  ghost predicate FreeReachable(s: seq<MInode>, supers: seq<Super>, blocks: map<(int, int), Block>)
  {
    forall k :: 0 <= k < |s| && s[k].count == 0 && s[k].dirt ==> ReachableIn(supers, blocks, s[k])
  }

  ghost predicate FreeSlotsReachable(fs: FileSystem)
    reads fs
  {
    FreeReachable(fs.inodes, fs.supers, fs.blocks)
  }

  /** Taking a slot into use and rewriting blocks in place keeps the unused slots reachable. */
  lemma FreeReachableKept(s: seq<MInode>, supers: seq<Super>, b: map<(int, int), Block>,
                          b': map<(int, int), Block>, r: nat, v: MInode)
    requires FreeReachable(s, supers, b) && b'.Keys == b.Keys && r < |s| && v.count != 0
    ensures FreeReachable(s[r := v], supers, b')
  {
    var s' := s[r := v];
    forall k | 0 <= k < |s'| && s'[k].count == 0 && s'[k].dirt
      ensures ReachableIn(supers, b', s'[k])
    {
      assert s'[k] == s[k];
    }
  }

  // ---------------------------------------------------------------------
  // The scans of iget
  // ---------------------------------------------------------------------

  /** The first slot from `k` on holding inode `nr` of `dev`, or NONE. */
  function SlotFrom(s: seq<MInode>, dev: int, nr: int, k: nat): (r: int)
    requires k <= |s|
    ensures r == NONE || (k <= r < |s| && s[r].dev == dev && s[r].num == nr)
    decreases |s| - k
  {
    if k == |s| then NONE
    else if s[k].dev == dev && s[k].num == nr then k
    else SlotFrom(s, dev, nr, k + 1)
  }

  /** `SlotFrom` finds the first slot from `k` on holding the inode, and NONE only when none does. */
  lemma {:induction false} SlotFromFirst(s: seq<MInode>, dev: int, nr: int, k: nat)
    requires k <= |s|
    ensures var r := SlotFrom(s, dev, nr, k);
            (r == NONE <==> forall m :: k <= m < |s| ==> !(s[m].dev == dev && s[m].num == nr)) &&
            (r != NONE ==> forall m :: k <= m < r ==> !(s[m].dev == dev && s[m].num == nr))
    decreases |s| - k
  {
    if k < |s| {
      SlotFromFirst(s, dev, nr, k + 1);
    }
  }

  /** The first superblock slot whose `s_imount` is inode slot `x`, or NONE. */
  function MountedOn(supers: seq<Super>, x: int, k: nat): (r: int)
    requires k <= |supers|
    ensures r == NONE || (k <= r < |supers| && supers[r].imount == x)
    decreases |supers| - k
  {
    if k == |supers| then NONE
    else if supers[k].imount == x then k
    else MountedOn(supers, x, k + 1)
  }

  /** `MountedOn` finds the first superblock mounted on `x`, and NONE only when none is. */
  lemma {:induction false} MountedOnFirst(supers: seq<Super>, x: int, k: nat)
    requires k <= |supers|
    ensures var r := MountedOn(supers, x, k);
            (r == NONE <==> forall m :: k <= m < |supers| ==> supers[m].imount != x) &&
            (r != NONE ==> forall m :: k <= m < r ==> supers[m].imount != x)
    decreases |supers| - k
  {
    if k < |supers| {
      MountedOnFirst(supers, x, k + 1);
    }
  }

  /** Keeping only device and number fields, `SlotFrom` ignores every other field. */
  lemma {:induction false} SlotFromIgnores(s: seq<MInode>, s': seq<MInode>, dev: int, nr: int, k: nat)
    requires |s'| == |s| && k <= |s|
    requires forall m :: 0 <= m < |s| ==> s'[m].dev == s[m].dev && s'[m].num == s[m].num
    ensures SlotFrom(s', dev, nr, k) == SlotFrom(s, dev, nr, k)
    decreases |s| - k
  {
    if k < |s| {
      SlotFromIgnores(s, s', dev, nr, k + 1);
    }
  }

  /** The scan of `inode_table` in `iget`. */
  method FindSlot(fs: FileSystem, dev: int, nr: int) returns (r: int)
    requires fs.Valid()
    ensures r == SlotFrom(fs.inodes, dev, nr, 0)
  {
    var k := 0;
    while k < NR_INODE
      invariant 0 <= k <= NR_INODE
      invariant SlotFrom(fs.inodes, dev, nr, k) == SlotFrom(fs.inodes, dev, nr, 0)
    {
      if fs.inodes[k].dev == dev && fs.inodes[k].num == nr {
        return k;
      }
      k := k + 1;
    }
    return NONE;
  }

  /** The scan of `super_block[]` for the superblock mounted on slot `x`. */
  method FindMount(fs: FileSystem, x: int) returns (r: int)
    requires fs.Valid()
    ensures r == MountedOn(fs.supers, x, 0)
  {
    var k := 0;
    while k < NR_SUPER
      invariant 0 <= k <= NR_SUPER
      invariant MountedOn(fs.supers, x, k) == MountedOn(fs.supers, x, 0)
    {
      if fs.supers[k].imount == x {
        return k;
      }
      k := k + 1;
    }
    return NONE;
  }

  /**
   * The inode `iget(dev, nr)` ends on: inode `nr` of `dev`, or, when the
   * slot holding it is a mount point with a superblock mounted there,
   * the root inode of that superblock's device.
   */
  function Target(s: seq<MInode>, supers: seq<Super>, dev: int, nr: int): (t: (int, int))
    ensures t == (dev, nr) || t.1 == ROOT_INO
  {
    var x := SlotFrom(s, dev, nr, 0);
    if x != NONE && s[x].mount && MountedOn(supers, x, 0) != NONE
    then (supers[MountedOn(supers, x, 0)].dev, ROOT_INO)
    else (dev, nr)
  }

  /** A slot `get_empty_inode` handed out, given device `dev` and number `nr`, before `read_inode`. */
  function Named(dev: int, nr: int): (r: MInode)
  {
    ZERO_INODE.(dev := dev, num := nr, count := 1)
  }

  /**
   * The miss path of `iget`: an empty slot is named `(dev, nr)` and its
   * record read from the inode block. Without an empty slot the source
   * sleeps; here the result is NONE and nothing changes.
   */
  method Load(fs: FileSystem, dev: int, nr: int) returns (r: int)
    requires fs.Valid() && FreeSlotsReachable(fs) && ReachableIn(fs.supers, fs.blocks, Named(dev, nr))
    modifies fs
    ensures fs.Valid()
    ensures r == NONE ==> NoneFree(old(fs.inodes)) && fs.inodes == old(fs.inodes) && fs.blocks == old(fs.blocks)
    ensures r != NONE ==> 0 <= r < NR_INODE && old(fs.inodes[r].count) == 0 &&
                          ReachableIn(fs.supers, fs.blocks, Named(dev, nr)) &&
                          fs.inodes == old(fs.inodes)[r := Named(dev, nr).(d := LoadInode(fs.blocks[KeyIn(fs.supers, Named(dev, nr))].data, nr))]
    ensures r != NONE && !old(fs.inodes[r].dirt) ==> fs.blocks == old(fs.blocks)
    ensures fs.blocks.Keys == old(fs.blocks.Keys) && FreeSlotsReachable(fs)
    ensures MountsOk(old(fs.inodes)) ==> MountsOk(fs.inodes)
    ensures fs.supers == old(fs.supers) && fs.files == old(fs.files) && fs.rootDev == old(fs.rootDev)
  {
    ghost var s0, b0 := fs.inodes, fs.blocks;
    r := fs.GetEmptyInode();
    if r == NONE {
      return;
    }
    assert fs.blocks.Keys == b0.Keys && fs.inodes == s0[r := ZERO_INODE.(count := 1)];
    assert ReachableIn(fs.supers, fs.blocks, Named(dev, nr));
    Name(fs, r, dev, nr);
    FreeReachableKept(s0, fs.supers, b0, fs.blocks, r, fs.inodes[r]);
  }

  /** The empty slot `x` is given device `dev` and number `nr` and its record is read. */
  method Name(fs: FileSystem, x: nat, dev: int, nr: int)
    requires fs.Valid() && x < NR_INODE && fs.inodes[x] == ZERO_INODE.(count := 1)
    requires ReachableIn(fs.supers, fs.blocks, Named(dev, nr))
    modifies fs
    ensures fs.Valid()
    ensures fs.blocks == old(fs.blocks) && fs.supers == old(fs.supers)
    ensures fs.files == old(fs.files) && fs.rootDev == old(fs.rootDev)
    ensures fs.inodes == old(fs.inodes)[x := Named(dev, nr).(d := LoadInode(fs.blocks[KeyIn(fs.supers, Named(dev, nr))].data, nr))]
  {
    fs.inodes := fs.inodes[x := Named(dev, nr)];
    fs.ReadInode(x);
  }

  /** One more reference on slot `x`. */
  method Hold(fs: FileSystem, x: nat)
    requires fs.Valid() && x < NR_INODE
    modifies fs
    ensures fs.Valid()
    ensures fs.inodes == old(fs.inodes)[x := old(fs.inodes[x]).(count := old(fs.inodes[x].count) + 1)]
    ensures fs.blocks == old(fs.blocks) && fs.lastInode == old(fs.lastInode) && fs.supers == old(fs.supers)
    ensures fs.files == old(fs.files) && fs.rootDev == old(fs.rootDev)
  {
    fs.inodes := fs.inodes[x := fs.inodes[x].(count := fs.inodes[x].count + 1)];
  }

  /**
   * The scan of `iget` for inode `nr` of `dev` and what follows it: a
   * cached inode gains a reference; a missing one is loaded into an
   * empty slot.
   */
  method Acquire(fs: FileSystem, dev: int, nr: int) returns (r: int)
    requires fs.Valid() && FreeSlotsReachable(fs)
    requires SlotFrom(fs.inodes, dev, nr, 0) == NONE ==> ReachableIn(fs.supers, fs.blocks, Named(dev, nr))
    modifies fs
    ensures fs.Valid() && FreeSlotsReachable(fs)
    ensures MountsOk(old(fs.inodes)) ==> MountsOk(fs.inodes)
    ensures fs.supers == old(fs.supers) && fs.files == old(fs.files) && fs.rootDev == old(fs.rootDev)
    ensures SlotFrom(old(fs.inodes), dev, nr, 0) != NONE ==> fs.blocks == old(fs.blocks)
    ensures r != NONE ==> 0 <= r < NR_INODE && fs.inodes[r].dev == dev && fs.inodes[r].num == nr
    ensures fs.blocks == old(fs.blocks) || (r != NONE && old(fs.inodes[r].count) == 0 && old(fs.inodes[r].dirt))
    ensures var y := SlotFrom(old(fs.inodes), dev, nr, 0);
            y != NONE ==> r == y && fs.inodes == old(fs.inodes)[y := old(fs.inodes[y]).(count := old(fs.inodes[y].count) + 1)]
    ensures SlotFrom(old(fs.inodes), dev, nr, 0) == NONE ==>
              (r == NONE ==> NoneFree(old(fs.inodes)) && fs.inodes == old(fs.inodes) && fs.blocks == old(fs.blocks)) &&
              (r != NONE ==> old(fs.inodes[r].count) == 0 && ReachableIn(fs.supers, fs.blocks, Named(dev, nr)) &&
                             (!old(fs.inodes[r].dirt) ==> fs.blocks == old(fs.blocks)) &&
                             fs.inodes == old(fs.inodes)[r := Named(dev, nr).(d := LoadInode(fs.blocks[KeyIn(fs.supers, Named(dev, nr))].data, nr))])
  {
    r := FindSlot(fs, dev, nr);
    if r == NONE {
      r := Load(fs, dev, nr);
    } else {
      Hold(fs, r);
    }
  }

  /**
   * `iget(dev, nr)`: `Acquire`; and when the inode it reaches is a mount
   * point, the lookup restarts at the root inode of the device mounted
   * there while the mount point keeps the reference it gained. A mount
   * point without a superblock loses its mark instead. Device 0 is fatal
   * in the source.
   */
  method Iget(fs: FileSystem, dev: int, nr: int) returns (r: int)
    requires fs.Valid() && dev != 0 && MountsOk(fs.inodes) && FreeSlotsReachable(fs)
    requires var t := Target(fs.inodes, fs.supers, dev, nr);
             SlotFrom(fs.inodes, t.0, t.1, 0) == NONE ==> ReachableIn(fs.supers, fs.blocks, Named(t.0, t.1))
    modifies fs
    ensures fs.Valid() && MountsOk(fs.inodes)
    ensures fs.supers == old(fs.supers) && fs.files == old(fs.files) && fs.rootDev == old(fs.rootDev)
    ensures var t := Target(old(fs.inodes), old(fs.supers), dev, nr);
            r != NONE ==> 0 <= r < NR_INODE && fs.inodes[r].dev == t.0 && fs.inodes[r].num == t.1
    ensures fs.blocks == old(fs.blocks) || (r != NONE && old(fs.inodes[r].count) == 0 && old(fs.inodes[r].dirt))
    ensures var t := Target(old(fs.inodes), old(fs.supers), dev, nr);
            var y := SlotFrom(old(fs.inodes), t.0, t.1, 0);
            y != NONE ==> r == y && fs.inodes[y].count == old(fs.inodes[y].count) + 1
    ensures var x := SlotFrom(old(fs.inodes), dev, nr, 0);
            x != NONE ==> fs.inodes[x].count == old(fs.inodes[x].count) + 1
    ensures var x := SlotFrom(old(fs.inodes), dev, nr, 0);
            x != NONE && !old(fs.inodes[x].mount) ==>
              r == x && fs.blocks == old(fs.blocks) &&
              fs.inodes == old(fs.inodes)[x := old(fs.inodes[x]).(count := old(fs.inodes[x].count) + 1)]
    ensures var t := Target(old(fs.inodes), old(fs.supers), dev, nr);
            SlotFrom(old(fs.inodes), t.0, t.1, 0) == NONE && r != NONE ==>
              old(fs.inodes[r].count) == 0 && fs.inodes[r].count == 1
    ensures SlotFrom(old(fs.inodes), dev, nr, 0) == NONE ==>
              (r == NONE ==> NoneFree(old(fs.inodes)) && fs.inodes == old(fs.inodes) && fs.blocks == old(fs.blocks)) &&
              (r != NONE ==> ReachableIn(fs.supers, fs.blocks, Named(dev, nr)) &&
                             (!old(fs.inodes[r].dirt) ==> fs.blocks == old(fs.blocks)) &&
                             fs.inodes == old(fs.inodes)[r := Named(dev, nr).(d := LoadInode(fs.blocks[KeyIn(fs.supers, Named(dev, nr))].data, nr))])
    ensures var x := SlotFrom(old(fs.inodes), dev, nr, 0);
            x != NONE && old(fs.inodes[x].mount) ==>
              Crossed(fs.supers, old(fs.inodes)[x := old(fs.inodes[x]).(count := old(fs.inodes[x].count) + 1)], old(fs.blocks),
                      x, r, fs.inodes, fs.blocks)
  {
    ghost var s0 := fs.inodes;
    ghost var x := SlotFrom(s0, dev, nr, 0);
    r := Acquire(fs, dev, nr);
    if r == NONE || !fs.inodes[r].mount {
      assert x != NONE ==> r == x && !s0[x].mount;
      assert Target(s0, fs.supers, dev, nr) == (dev, nr);
      return;
    }
    assert x != NONE && r == x;
    SlotFromIgnores(s0, fs.inodes, dev, nr, 0);
    r := Cross(fs, r, s0);
  }

  /**
   * `s2` and `b1` are the table and the blocks after the restart of
   * `iget` at mount point `x` of table `s1` with blocks `b0`, ending on
   * `r`: with no superblock mounted there `x` loses its mark; otherwise
   * the mounted root gains a reference where it is cached, or is loaded
   * into the empty slot `r`, or no slot is free and nothing changes.
   */
  ghost predicate Crossed(supers: seq<Super>, s1: seq<MInode>, b0: map<(int, int), Block>, x: nat, r: int,
                          s2: seq<MInode>, b1: map<(int, int), Block>)
    requires |s1| == NR_INODE && x < NR_INODE
  {
    var sb := MountedOn(supers, x, 0);
    if sb == NONE then r == x && b1 == b0 && s2 == s1[x := s1[x].(mount := false)]
    else
      var root := Named(supers[sb].dev, ROOT_INO);
      var y := SlotFrom(s1, root.dev, ROOT_INO, 0);
      if y != NONE then r == y && b1 == b0 && s2 == s1[y := s1[y].(count := s1[y].count + 1)]
      else if r == NONE then NoneFree(s1) && s2 == s1 && b1 == b0
      else
        0 <= r < NR_INODE && s1[r].count == 0 && (!s1[r].dirt ==> b1 == b0) && ReachableIn(supers, b1, root) &&
        |b1[KeyIn(supers, root)].data| == BLOCK_SIZE &&
        s2 == s1[r := root.(d := LoadInode(b1[KeyIn(supers, root)].data, ROOT_INO))]
  }

  /**
   * The restart of `iget` at mount point `x`, which already gained its
   * reference (`s0` is the table before that): at the root inode of the
   * device mounted there, or, with no superblock mounted there, at `x`
   * itself, which loses its mark.
   */
  method Cross(fs: FileSystem, x: nat, ghost s0: seq<MInode>) returns (r: int)
    requires fs.Valid() && x < NR_INODE && fs.inodes[x].mount && MountsOk(fs.inodes) && FreeSlotsReachable(fs)
    requires |s0| == NR_INODE && fs.inodes == s0[x := s0[x].(count := s0[x].count + 1)]
    requires var sb := MountedOn(fs.supers, x, 0);
             sb != NONE && SlotFrom(s0, fs.supers[sb].dev, ROOT_INO, 0) == NONE ==>
               ReachableIn(fs.supers, fs.blocks, Named(fs.supers[sb].dev, ROOT_INO))
    modifies fs
    ensures fs.Valid() && MountsOk(fs.inodes)
    ensures fs.supers == old(fs.supers) && fs.files == old(fs.files) && fs.rootDev == old(fs.rootDev)
    ensures fs.inodes[x].count == old(fs.inodes[x].count)
    ensures fs.blocks == old(fs.blocks) || (r != NONE && 0 <= r < NR_INODE && old(fs.inodes[r].count) == 0 && old(fs.inodes[r].dirt))
    ensures var sb := MountedOn(fs.supers, x, 0);
            sb == NONE ==> r == x && fs.inodes == old(fs.inodes)[x := old(fs.inodes[x]).(mount := false)]
    ensures var sb := MountedOn(fs.supers, x, 0);
            sb != NONE ==> var y := SlotFrom(s0, fs.supers[sb].dev, ROOT_INO, 0);
                           (r != NONE ==> 0 <= r < NR_INODE && fs.inodes[r].dev == fs.supers[sb].dev && fs.inodes[r].num == ROOT_INO) &&
                           (y != NONE ==> r == y && fs.inodes[y].count == old(fs.inodes[y].count) + 1) &&
                           (y == NONE && r != NONE ==> old(fs.inodes[r].count) == 0 && fs.inodes[r].count == 1)
    ensures Crossed(fs.supers, old(fs.inodes), old(fs.blocks), x, r, fs.inodes, fs.blocks)
  {
    var sb := FindMount(fs, x);
    if sb == NONE {
      fs.inodes := fs.inodes[x := fs.inodes[x].(mount := false)];
      return x;
    }
    SlotFromIgnores(s0, fs.inodes, fs.supers[sb].dev, ROOT_INO, 0);
    r := Acquire(fs, fs.supers[sb].dev, ROOT_INO);
  }

  // ---------------------------------------------------------------------
  // iput
  // ---------------------------------------------------------------------

  /** `free_inode` on inode `i` of a mounted device does not halt: a valid number within the bitmap. */
  ghost predicate CanFreeInode(supers: seq<Super>, i: MInode)
  {
    var sb := SuperOf(supers, i.dev);
    i.num >= 1 && sb != NONE &&
    i.num <= supers[sb].d.ninodes && ZmapIndx(i.num) < |supers[sb].inodeMap|
  }

  /** `iput` does nothing on a block-special inode but `sync_dev`, which writes back inodes. */
  predicate SyncsFirst(i: MInode)
  {
    !i.pipe && i.dev != 0 && IsBlk(i.d.mode)
  }

  /**
   * `b1` is `b0` after an `iput` on slot `x` of `s` that keeps the inode:
   * a block-special inode first has every inode written back
   * (`sync_dev`); otherwise the last reference to a dirty inode writes its
   * record back; any other drop leaves the blocks alone.
   */
  ghost predicate PutKeeps(b0: map<(int, int), Block>, b1: map<(int, int), Block>, supers: seq<Super>,
                           s: seq<MInode>, x: nat)
    requires x < |s| == NR_INODE
  {
    var i := s[x];
    if SyncsFirst(i) then
      (forall key :: key in b0 ==> |b0[key].data| == BLOCK_SIZE) &&
      (forall k :: 0 <= k < NR_INODE && NeedsSync(s[k]) ==> s[k].Valid() && ReachableIn(supers, b0, s[k])) &&
      b1 == Synced(b0, supers, s, NR_INODE)
    else if !i.pipe && i.dev != 0 && i.count == 1 && i.dirt then
      ReachableIn(supers, b0, i) && i.Valid() && |b0[KeyIn(supers, i)].data| == BLOCK_SIZE &&
      b1 == PutInode(b0, KeyIn(supers, i), i.num, i.d)
    else
      b1 == b0
  }

  /** An `iput` that keeps the inode writes nothing but inode records. */
  lemma PutKeepsRecordsOnly(b0: map<(int, int), Block>, b1: map<(int, int), Block>, supers: seq<Super>,
                            s: seq<MInode>, x: nat)
    requires x < |s| == NR_INODE && PutKeeps(b0, b1, supers, s, x)
    ensures RecordsOnly(b0, b1, supers)
  {
    var i := s[x];
    if SyncsFirst(i) {
      SyncedRecordsOnly(b0, supers, s, NR_INODE);
    } else if !i.pipe && i.dev != 0 && i.count == 1 && i.dirt {
      PutInodeRecordsOnly(b0, supers, i);
    }
  }

  /**
   * What `iput` on slot `x` of `s` over the store `st` leaves as `s2`,
   * `st2` and the freed `page`: the slot has one holder fewer; a
   * block-special inode has every inode written back first; the last
   * holder of a pipe frees its page; the last reference to an inode
   * without links releases it; any other drop writes back at most the
   * inode's own record, or every record for a block-special inode.
   */
  ghost predicate IputDid(s: seq<MInode>, st: Store, x: nat, s2: seq<MInode>, st2: Store, page: int)
    requires x < |s| == NR_INODE == |s2|
  {
    var i := s[x];
    s2[x].count == i.count - 1 &&
    (forall k :: 0 <= k < NR_INODE && k != x ==> s2[k] == if SyncsFirst(i) then Cleaned(s[k]) else s[k]) &&
    (i.pipe ==> page == (if i.count > 1 then 0 else i.d.size) && st2 == st) &&
    (!i.pipe ==> page == 0) &&
    (!i.pipe && i.dev == 0 ==> s2[x] == i.(count := i.count - 1) && st2 == st) &&
    (!Releases(i) ==> HoldsKept(st.blocks, st2.blocks) && PutKeeps(st.blocks, st2.blocks, st.supers, s, x)) &&
    (!i.pipe && i.dev != 0 && !Releases(i) ==>
       s2[x] == i.(count := i.count - 1, dirt := i.dirt && i.count > 1 && !IsBlk(i.d.mode)) && st2.supers == st.supers) &&
    (Releases(i) ==>
       s2[x] == ZERO_INODE && Releasable(st, i) && st2.supers == Released(st, i).supers &&
       (!IsBlk(i.d.mode) ==> st2 == Released(st, i)))
  }

  /**
   * `iput` on slot `x` runs without a fatal error: the slot is in use;
   * `sync_inodes` can write back what it must; the last reference to an
   * inode without links can be truncated and freed; and a dirty inode
   * still linked can be written back.
   */
  ghost predicate CanPut(fs: FileSystem, x: nat)
    reads fs
    requires fs.Valid() && x < NR_INODE
  {
    var i := fs.inodes[x];
    i.count != 0 &&
    (SyncsFirst(i) ==>
       forall k :: 0 <= k < NR_INODE && NeedsSync(fs.inodes[k]) ==> ReachableIn(fs.supers, fs.blocks, fs.inodes[k])) &&
    (!i.pipe && i.dev != 0 && i.count == 1 && i.d.nlinks == 0 ==>
       CanFreeInode(fs.supers, i) &&
       (Truncatable(i.d.mode) ==> Runs(StoreOf(fs), i.dev, TruncTrace(i.d.zone, fs.blocks, i.dev)))) &&
    (!i.pipe && i.dev != 0 && i.count == 1 && i.d.nlinks != 0 && i.dirt ==> ReachableIn(fs.supers, fs.blocks, i))
  }

  /**
   * `iput` on a pipe inode: one holder less; the last one frees the
   * pipe's page, returned as `page` (0 when none is freed), and leaves
   * the slot unused, clean and no longer a pipe.
   */
  method PutPipe(fs: FileSystem, x: nat) returns (page: int)
    requires fs.Valid() && x < NR_INODE && fs.inodes[x].pipe && fs.inodes[x].count != 0
    modifies fs
    ensures fs.Valid()
    ensures var i := old(fs.inodes[x]);
            fs.inodes == old(fs.inodes)[x := if i.count > 1 then i.(count := i.count - 1)
                                             else i.(count := 0, dirt := false, pipe := false)]
    ensures page == if old(fs.inodes[x].count) > 1 then 0 else old(fs.inodes[x].d.size)
    ensures fs.blocks == old(fs.blocks) && fs.lastInode == old(fs.lastInode) && fs.supers == old(fs.supers)
    ensures fs.files == old(fs.files) && fs.rootDev == old(fs.rootDev)
  {
    var i := fs.inodes[x];
    if i.count > 1 {
      fs.inodes := fs.inodes[x := i.(count := i.count - 1)];
      return 0;
    }
    page := i.d.size;
    fs.inodes := fs.inodes[x := i.(count := 0, dirt := false, pipe := false)];
  }

  /** `iput` on `i` truncates and frees it: the last reference to an inode on a device without links. */
  predicate Releases(i: MInode)
  {
    !i.pipe && i.dev != 0 && i.count == 1 && i.d.nlinks == 0
  }

  /** The store `truncate` leaves when it runs over inode `i`: only regular files and directories are truncated. */
  ghost function TruncatedIn(st: Store, i: MInode): (r: Store)
    requires i.Valid() && BlocksOk(st.blocks)
    requires Truncatable(i.d.mode) ==> Runs(st, i.dev, TruncTrace(i.d.zone, st.blocks, i.dev))
  {
    if Truncatable(i.d.mode) then Run(st, i.dev, TruncTrace(i.d.zone, st.blocks, i.dev)) else st
  }

  /**
   * `truncate` and `free_inode` run on inode `i` over the store `st`
   * without halting: the superblocks are sound, the inode's bit lies in
   * its device's bitmap, and every `free_block` finds a data zone.
   */
  ghost predicate Releasable(st: Store, i: MInode)
  {
    (forall k :: 0 <= k < |st.supers| ==> st.supers[k].Valid()) &&
    CanFreeInode(st.supers, i) && i.Valid() && BlocksOk(st.blocks) &&
    (Truncatable(i.d.mode) ==> Runs(st, i.dev, TruncTrace(i.d.zone, st.blocks, i.dev)))
  }

  /**
   * The store the last `iput` of an unlinked inode `i` leaves behind:
   * `truncate` runs over a regular file or a directory, then
   * `free_inode` clears the inode's bit.
   */
  ghost function Released(st: Store, i: MInode): (r: Store)
    requires Releasable(st, i)
    ensures |r.supers| == |st.supers| && SuperOf(r.supers, i.dev) == SuperOf(st.supers, i.dev)
    ensures var sb := SuperOf(st.supers, i.dev);
            r.supers[sb].Valid() &&
            forall n :: InodeAllocated(r.supers[sb], n) == (n != i.num && InodeAllocated(st.supers[sb], n))
    ensures forall y :: Allocated(r.supers, i.dev, y) == Allocated(TruncatedIn(st, i).supers, i.dev, y)
    ensures SameData(st.blocks, r.blocks)
    ensures !Truncatable(i.d.mode) ==> r == st.(supers := r.supers)
  {
    var sb := SuperOf(st.supers, i.dev);
    var t := TruncatedIn(st, i);
    assert Truncatable(i.d.mode) ==>
             (RunKeepsInodeMaps(st, i.dev, TruncTrace(i.d.zone, st.blocks, i.dev));
              t.supers[sb].Valid() && t.supers[sb].inodeMap == st.supers[sb].inodeMap && t.supers[sb].dev == i.dev);
    ReleasedInodeIn(t.supers, sb, i.num, i.dev);
    Store(t.supers[sb := ReleasedInode(t.supers[sb], i.num)], t.blocks)
  }

  /**
   * The last `iput` of an unlinked file frees its inode and never sets a
   * zone bit; every zone the file mapped that has no cached copy ends
   * free.
   */
  lemma ReleasedFrees(st: Store, i: MInode, block: nat)
    requires Releasable(st, i)
    ensures var r := Released(st, i);
            (forall y :: Allocated(r.supers, i.dev, y) ==> Allocated(st.supers, i.dev, y)) &&
            (Truncatable(i.d.mode) && block < MAX_FILE_BLOCKS && Lookup(i.d.zone, st.blocks, i.dev, block) != 0 &&
             (i.dev, Lookup(i.d.zone, st.blocks, i.dev, block)) !in st.blocks ==>
               !Allocated(r.supers, i.dev, Lookup(i.d.zone, st.blocks, i.dev, block)))
  {
    var r, t := Released(st, i), TruncatedIn(st, i);
    var tr := TruncTrace(i.d.zone, st.blocks, i.dev);
    forall y | Allocated(r.supers, i.dev, y)
      ensures Allocated(st.supers, i.dev, y)
    {
      if Truncatable(i.d.mode) && !Allocated(st.supers, i.dev, y) {
        TruncateFacts.RunKeepsFree(st, i.dev, tr, y);
      }
    }
    if Truncatable(i.d.mode) && block < MAX_FILE_BLOCKS && Lookup(i.d.zone, st.blocks, i.dev, block) != 0 &&
       (i.dev, Lookup(i.d.zone, st.blocks, i.dev, block)) !in st.blocks {
      TruncateFacts.TruncReleasesMapped(st, i.d.zone, i.dev, block);
    }
  }

  /**
   * What the `repeat:` part of `iput` did when it took inode `i` and the
   * store `st` to `i2` and `st2`: a shared inode lost one reference;
   * the last reference to an inode with links wrote a dirty record back
   * and cleaned it; the last reference to an inode without links
   * released it as `Released` says and cleared the slot.
   */
  ghost predicate PutLastDid(i: MInode, st: Store, i2: MInode, st2: Store)
  {
    (i.count > 1 ==> i2 == i.(count := i.count - 1) && st2 == st) &&
    (i.count == 1 && i.d.nlinks != 0 ==>
       i2 == i.(count := 0, dirt := false) && st2.supers == st.supers &&
       (i.dirt ==> BlocksOk(st.blocks) && i.Valid() && ReachableIn(st.supers, st.blocks, i) &&
                   st2.blocks == PutInode(st.blocks, KeyIn(st.supers, i), i.num, i.d)) &&
       (!i.dirt ==> st2.blocks == st.blocks)) &&
    (i.count == 1 && i.d.nlinks == 0 ==> i2 == ZERO_INODE && Releasable(st, i) && st2 == Released(st, i))
  }

  /** The last reference to an inode without links: `truncate`, then `free_inode`. */
  method Release(fs: FileSystem, x: nat, now: u32)
    requires fs.Valid() && x < NR_INODE
    requires var i := fs.inodes[x];
             i.dev != 0 && i.count == 1 && i.d.nlinks == 0 && CanFreeInode(fs.supers, i) &&
             (Truncatable(i.d.mode) ==> Runs(StoreOf(fs), i.dev, TruncTrace(i.d.zone, fs.blocks, i.dev)))
    modifies fs
    ensures fs.Valid()
    ensures fs.lastInode == old(fs.lastInode) && fs.files == old(fs.files) && fs.rootDev == old(fs.rootDev)
    ensures fs.inodes == old(fs.inodes)[x := ZERO_INODE]
    ensures var i := old(fs.inodes[x]);
            SuperOf(fs.supers, i.dev) != NONE && !InodeAllocated(fs.supers[SuperOf(fs.supers, i.dev)], i.num) &&
            (Truncatable(i.d.mode) ==> fs.blocks == Run(old(StoreOf(fs)), i.dev, TruncTrace(i.d.zone, old(fs.blocks), i.dev)).blocks) &&
            (!Truncatable(i.d.mode) ==> fs.blocks == old(fs.blocks))
    ensures StoreOf(fs) == Released(old(StoreOf(fs)), old(fs.inodes[x]))
  {
    ghost var i, st := fs.inodes[x], StoreOf(fs);
    Truncate.Truncate(fs, x, now);
    if Truncatable(i.d.mode) {
      RunKeepsInodeMaps(st, i.dev, TruncTrace(i.d.zone, st.blocks, i.dev));
    }
    assert SuperOf(fs.supers, i.dev) == SuperOf(st.supers, i.dev);
    assert StoreOf(fs) == TruncatedIn(st, i);
    FreeInode(fs, x);
  }

  /**
   * The `repeat:` part of `iput` for an inode on a device: a shared
   * inode loses one reference; the last reference to an inode without
   * links truncates it and frees it; a dirty inode is written back
   * first; then the count drops to 0.
   */
  method PutLast(fs: FileSystem, x: nat, now: u32)
    requires fs.Valid() && x < NR_INODE
    requires var i := fs.inodes[x];
             !i.pipe && i.dev != 0 && i.count != 0 &&
             (i.count == 1 && i.d.nlinks == 0 ==>
                CanFreeInode(fs.supers, i) &&
                (Truncatable(i.d.mode) ==> Runs(StoreOf(fs), i.dev, TruncTrace(i.d.zone, fs.blocks, i.dev)))) &&
             (i.count == 1 && i.d.nlinks != 0 && i.dirt ==> ReachableIn(fs.supers, fs.blocks, i))
    modifies fs
    ensures fs.Valid()
    ensures fs.lastInode == old(fs.lastInode) && fs.files == old(fs.files) && fs.rootDev == old(fs.rootDev)
    ensures forall k :: 0 <= k < NR_INODE && k != x ==> fs.inodes[k] == old(fs.inodes[k])
    ensures !Releases(old(fs.inodes[x])) ==> HoldsKept(old(fs.blocks), fs.blocks)
    ensures var i := old(fs.inodes[x]);
            i.count > 1 ==> fs.inodes[x] == i.(count := i.count - 1) &&
                            fs.supers == old(fs.supers) && fs.blocks == old(fs.blocks)
    ensures var i := old(fs.inodes[x]);
            i.count == 1 && i.d.nlinks != 0 ==>
              fs.inodes[x] == i.(count := 0, dirt := false) && fs.supers == old(fs.supers) &&
              (i.dirt ==> fs.blocks == old(PutInode(fs.blocks, KeyIn(fs.supers, i), i.num, i.d))) &&
              (!i.dirt ==> fs.blocks == old(fs.blocks))
    ensures var i := old(fs.inodes[x]);
            i.count == 1 && i.d.nlinks == 0 ==>
              fs.inodes[x] == ZERO_INODE && SuperOf(fs.supers, i.dev) != NONE &&
              !InodeAllocated(fs.supers[SuperOf(fs.supers, i.dev)], i.num) &&
              (Truncatable(i.d.mode) ==> fs.blocks == Run(old(StoreOf(fs)), i.dev, TruncTrace(i.d.zone, old(fs.blocks), i.dev)).blocks) &&
              (!Truncatable(i.d.mode) ==> fs.blocks == old(fs.blocks)) &&
              StoreOf(fs) == Released(old(StoreOf(fs)), i)
    ensures PutLastDid(old(fs.inodes[x]), old(StoreOf(fs)), fs.inodes[x], StoreOf(fs))
  {
    var i := fs.inodes[x];
    if i.count > 1 {
      fs.inodes := fs.inodes[x := i.(count := i.count - 1)];
      return;
    }
    if i.d.nlinks == 0 {
      Release(fs, x, now);
      return;
    }
    fs.WriteInode(x);
    fs.inodes := fs.inodes[x := fs.inodes[x].(count := 0)];
  }

  /**
   * `iput(inode)` on slot `x` (NONE for a null pointer) at time `now`:
   * always exactly one reference less. A pipe is handled by `PutPipe`,
   * an inode without a device just loses the reference, a block-special
   * inode first has the inodes written back (`sync_dev`), and the rest
   * is `PutLast`. `page` is the page handed to `free_page`, 0 if none.
   */
  method Iput(fs: FileSystem, x: int, now: u32) returns (page: int)
    requires fs.Valid()
    requires x != NONE ==> 0 <= x < NR_INODE && CanPut(fs, x)
    modifies fs
    ensures fs.Valid()
    ensures fs.lastInode == old(fs.lastInode) && fs.files == old(fs.files) && fs.rootDev == old(fs.rootDev)
    ensures x == NONE ==> page == 0 && fs.inodes == old(fs.inodes) && fs.supers == old(fs.supers) && fs.blocks == old(fs.blocks)
    ensures x != NONE ==> fs.inodes[x].count == old(fs.inodes[x].count) - 1
    ensures x != NONE && !Releases(old(fs.inodes[x])) ==> HoldsKept(old(fs.blocks), fs.blocks)
    ensures x != NONE && !Releases(old(fs.inodes[x])) ==> PutKeeps(old(fs.blocks), fs.blocks, old(fs.supers), old(fs.inodes), x)
    ensures x != NONE ==>
              forall k :: 0 <= k < NR_INODE && k != x ==>
                fs.inodes[k] == if SyncsFirst(old(fs.inodes[x])) then Cleaned(old(fs.inodes[k])) else old(fs.inodes[k])
    ensures x != NONE && !old(fs.inodes[x].pipe) ==> page == 0
    ensures x != NONE && old(fs.inodes[x].pipe) ==>
              page == (if old(fs.inodes[x].count) > 1 then 0 else old(fs.inodes[x].d.size)) &&
              fs.supers == old(fs.supers) && fs.blocks == old(fs.blocks)
    ensures x != NONE && !old(fs.inodes[x].pipe) && old(fs.inodes[x].dev) == 0 ==>
              fs.inodes[x] == old(fs.inodes[x]).(count := old(fs.inodes[x].count) - 1) &&
              fs.supers == old(fs.supers) && fs.blocks == old(fs.blocks)
    ensures x != NONE ==>
            var i := old(fs.inodes[x]);
            !i.pipe && i.dev != 0 && !(i.count == 1 && i.d.nlinks == 0) ==>
              fs.inodes[x] == i.(count := i.count - 1, dirt := i.dirt && i.count > 1 && !IsBlk(i.d.mode)) &&
              fs.supers == old(fs.supers)
    ensures x != NONE ==>
            var i := old(fs.inodes[x]);
            !i.pipe && i.dev != 0 && i.count == 1 && i.d.nlinks == 0 ==>
              fs.inodes[x] == ZERO_INODE && SuperOf(fs.supers, i.dev) != NONE && !InodeAllocated(fs.supers[SuperOf(fs.supers, i.dev)], i.num) &&
              fs.supers == Released(old(StoreOf(fs)), i).supers &&
              (!IsBlk(i.d.mode) ==> StoreOf(fs) == Released(old(StoreOf(fs)), i))
    ensures x != NONE ==> IputDid(old(fs.inodes), old(StoreOf(fs)), x, fs.inodes, StoreOf(fs), page)
  {
    if x == NONE {
      return 0;
    }
    if fs.inodes[x].pipe {
      page := PutPipe(fs, x);
      return;
    }
    page := 0;
    var i := fs.inodes[x];
    if i.dev == 0 {
      fs.inodes := fs.inodes[x := i.(count := i.count - 1)];
      return;
    }
    PutOnDevice(fs, x, now);
  }

  /** `iput` on an inode of a device that is not a pipe: `sync_dev` for a block-special inode, then `PutLast`. */
  method PutOnDevice(fs: FileSystem, x: nat, now: u32)
    requires fs.Valid() && x < NR_INODE && CanPut(fs, x) && !fs.inodes[x].pipe && fs.inodes[x].dev != 0
    modifies fs
    ensures fs.Valid()
    ensures fs.lastInode == old(fs.lastInode) && fs.files == old(fs.files) && fs.rootDev == old(fs.rootDev)
    ensures fs.inodes[x].count == old(fs.inodes[x].count) - 1
    ensures !Releases(old(fs.inodes[x])) ==> HoldsKept(old(fs.blocks), fs.blocks)
    ensures !Releases(old(fs.inodes[x])) ==> PutKeeps(old(fs.blocks), fs.blocks, old(fs.supers), old(fs.inodes), x)
    ensures forall k :: 0 <= k < NR_INODE && k != x ==>
              fs.inodes[k] == if SyncsFirst(old(fs.inodes[x])) then Cleaned(old(fs.inodes[k])) else old(fs.inodes[k])
    ensures var i := old(fs.inodes[x]);
            !(i.count == 1 && i.d.nlinks == 0) ==>
              fs.inodes[x] == i.(count := i.count - 1, dirt := i.dirt && i.count > 1 && !IsBlk(i.d.mode)) &&
              fs.supers == old(fs.supers)
    ensures var i := old(fs.inodes[x]);
            i.count == 1 && i.d.nlinks == 0 ==>
              fs.inodes[x] == ZERO_INODE && SuperOf(fs.supers, i.dev) != NONE &&
              !InodeAllocated(fs.supers[SuperOf(fs.supers, i.dev)], i.num) &&
              fs.supers == Released(old(StoreOf(fs)), i).supers &&
              (!IsBlk(i.d.mode) ==> StoreOf(fs) == Released(old(StoreOf(fs)), i))
  {
    if IsBlk(fs.inodes[x].d.mode) {
      PutBlockSpecial(fs, x, now);
    } else {
      PutLast(fs, x, now);
    }
  }

  /** `iput` on a block-special inode: `sync_dev` writes every inode back first, then `PutLast`. */
  method PutBlockSpecial(fs: FileSystem, x: nat, now: u32)
    requires fs.Valid() && x < NR_INODE && CanPut(fs, x) && !fs.inodes[x].pipe && fs.inodes[x].dev != 0
    requires IsBlk(fs.inodes[x].d.mode)
    modifies fs
    ensures fs.Valid()
    ensures fs.lastInode == old(fs.lastInode) && fs.files == old(fs.files) && fs.rootDev == old(fs.rootDev)
    ensures fs.inodes[x].count == old(fs.inodes[x].count) - 1
    ensures !Releases(old(fs.inodes[x])) ==> HoldsKept(old(fs.blocks), fs.blocks)
    ensures !Releases(old(fs.inodes[x])) ==> PutKeeps(old(fs.blocks), fs.blocks, old(fs.supers), old(fs.inodes), x)
    ensures forall k :: 0 <= k < NR_INODE && k != x ==>
              fs.inodes[k] == if SyncsFirst(old(fs.inodes[x])) then Cleaned(old(fs.inodes[k])) else old(fs.inodes[k])
    ensures var i := old(fs.inodes[x]);
            !(i.count == 1 && i.d.nlinks == 0) ==>
              fs.inodes[x] == i.(count := i.count - 1, dirt := i.dirt && i.count > 1 && !IsBlk(i.d.mode)) &&
              fs.supers == old(fs.supers)
    ensures var i := old(fs.inodes[x]);
            i.count == 1 && i.d.nlinks == 0 ==>
              fs.inodes[x] == ZERO_INODE && SuperOf(fs.supers, i.dev) != NONE &&
              !InodeAllocated(fs.supers[SuperOf(fs.supers, i.dev)], i.num) &&
              fs.supers == Released(old(StoreOf(fs)), i).supers
  {
    ghost var i := fs.inodes[x];
    fs.SyncInodes();
    assert fs.inodes[x] == i.(dirt := false) && !Truncatable(i.d.mode);
    PutLast(fs, x, now);
  }
}
