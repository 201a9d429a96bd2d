/*
 * The calls of fs/namei.c that create an inode: `sys_mknod` and
 * `sys_mkdir` (`open_namei`, which also may, is module OpenNamei).
 *
 * Each starts like the calls of module DirOps (`dir_namei`, the checks,
 * `find_entry`), specified by functions over the inode table and the
 * blocks. Then it takes a slot from `new_inode` (module Alloc), which
 * works on the file-system tables, and the rest is again a function of
 * the tables `new_inode` leaves (`MknodEnd`, `MkdirEnd`).
 * The methods on the file-system tables tie the three parts together.
 *
 * `iput` gives the reference back and nothing more, as in module DirOps.
 */
module Create {
  import opened Layout
  import opened Records
  import opened Tables
  import opened Bits
  import opened Bmap
  import opened Dirs
  import opened Namei
  import opened DirOps
  import Alloc
  import Iref
  import Truncate

  // ---------------------------------------------------------------------
  // The checks before new_inode
  // ---------------------------------------------------------------------

  /** Where the checks leave `sys_mknod` and `sys_mkdir`: an error, or the directory to add to and the base name. */
  datatype Room = Taken(err: int) | Room(dir: int, name: seq<byte>)

  /**
   * The checks `sys_mknod` and `sys_mkdir` make after `suser()`: those of
   * `Checked`, then -EEXIST when `find_entry` finds the base name.
   */
  function RoomFor(s: seq<MInode>, supers: seq<Super>, blocks: map<(int, int), Block>, t: Task, suser: bool,
                   iget: (int, int) -> int, path: seq<byte>): (r: Room)
    requires Sound(s, supers) && Igets(iget, s) && BlocksOk(blocks) && Caller(s, t)
    ensures r.Taken? ==> r.err == -ENOENT || r.err == -EPERM || r.err == -EEXIST
    ensures r.Room? ==> 0 <= r.dir < |s| && s[r.dir].dev != 0 &&
                        BaseStart(path) < |path| && r.name == path[BaseStart(path)..]
  {
    var p := ParentOf(s, supers, blocks, t, suser, iget, path);
    var err := Checked(s, t, suser, p);
    if err != 0 then Taken(err)
    else
      var st := Seek(s, supers, blocks, t.root, p.dir, p.name);
      if st.k != NONE then Taken(-EEXIST) else Room(st.dir, p.name)
  }

  /**
   * A name `sys_mknod` and `sys_mkdir` go on to create is one `namei`
   * finds nothing for, in a directory the caller may write.
   */
  lemma RoomUnnamed(s: seq<MInode>, supers: seq<Super>, blocks: map<(int, int), Block>, t: Task, suser: bool,
                    iget: (int, int) -> int, path: seq<byte>)
    requires Sound(s, supers) && Igets(iget, s) && BlocksOk(blocks) && Caller(s, t)
    ensures var r := RoomFor(s, supers, blocks, t, suser, iget, path);
            r.Room? ==> Resolve(s, supers, blocks, t, suser, iget, path) == NONE &&
                        Permission(s[GetDir(s, supers, blocks, t, suser, iget, path)], t.euid, t.egid, MAY_WRITE, suser)
  {
    var p := ParentOf(s, supers, blocks, t, suser, iget, path);
    if Checked(s, t, suser, p) == 0 {
      SeekAt(s, supers, blocks, t.root, p.dir, p.name);
    }
  }

  /** The checks on the table `s`: with room, the table ends holding the directory. */
  method RoomIn(s: seq<MInode>, supers: seq<Super>, blocks: map<(int, int), Block>, t: Task, suser: bool,
                iget: (int, int) -> int, path: seq<byte>)
    returns (r: Room, s': seq<MInode>)
    requires Sound(s, supers) && Igets(iget, s) && BlocksOk(blocks) && Caller(s, t)
    ensures r == RoomFor(s, supers, blocks, t, suser, iget, path)
    ensures s' == if r.Taken? then s else Hold(s, r.dir)
  {
    var p, s1 := ParentIn(s, supers, blocks, t, suser, iget, path);
    if p.NoDir? {
      return Taken(-ENOENT), s1;
    }
    HoldDrop(s, p.dir);
    if p.NoBase? {
      return Taken(-ENOENT), Drop(s1, p.dir);
    }
    if !Permission(s1[p.dir], t.euid, t.egid, MAY_WRITE, suser) {
      return Taken(-EPERM), Drop(s1, p.dir);
    }
    var d, k, ino, s2 := FindIn(s1, s, supers, blocks, t.root, p.dir, p.name);
    if k != NONE {
      HoldDrop(s, d);
      return Taken(-EEXIST), Drop(s2, d);
    }
    return Room(d, p.name), s2;
  }

  /** `new_inode(dir->i_dev)` halts the system when the directory's device is not mounted. */
  ghost predicate Mounted(s: seq<MInode>, supers: seq<Super>, r: Room)
  {
    r.Room? ==> 0 <= r.dir < |s| && SuperOf(supers, s[r.dir].dev) != NONE
  }

  /**
   * What `new_inode` did to the table `s` holding directory `d`: slot `x`
   * was unused and holds a fresh inode of the directory's device for the
   * caller; or, with `x` NONE, at most an unused slot was zeroed.
   */
  ghost predicate Claimed(s: seq<MInode>, d: int, x: int, s2: seq<MInode>, t: Task, now: u32)
  {
    0 <= d < |s| && |s2| == |s| &&
    (x == NONE ==> forall k :: 0 <= k < |s| ==> s2[k] == s[k] || (s[k].count == 0 && s2[k] == ZERO_INODE)) &&
    (x != NONE ==>
       0 <= x < |s| && s[x].count == 0 && x != d &&
       s2[x] == Alloc.FreshInode(s[d].dev, s2[x].num, t.euid % 0x1_0000, t.egid % 0x1_0000, now) &&
       forall k :: 0 <= k < |s| && k != x ==> s2[k] == s[k])
  }

  /** `new_inode` on the tables, held directory `d` in them: the slot it returns and what it did to the table. */
  method NewIn(fs: FileSystem, d: int, t: Task, now: u32) returns (x: int)
    requires fs.Valid() && Iref.FreeSlotsReachable(fs) && 0 <= d < NR_INODE && fs.inodes[d].count > 0
    requires SuperOf(fs.supers, fs.inodes[d].dev) != NONE
    modifies fs
    ensures fs.Valid() && Claimed(old(fs.inodes), d, x, fs.inodes, t, now)
    ensures fs.files == old(fs.files) && fs.rootDev == old(fs.rootDev) && HoldsKept(old(fs.blocks), fs.blocks)
    ensures var dev := old(fs.inodes[d].dev);
            old(Alloc.CanAllocate(fs.supers, fs.blocks, dev)) ==> Alloc.CanAllocate(fs.supers, fs.blocks, dev)
  {
    var dev := fs.inodes[d].dev;
    ghost var slot, found, bi, bj;
    x, slot, found, bi, bj := Alloc.NewInode(fs, dev, t.euid % 0x1_0000, t.egid % 0x1_0000, now);
  }

  // ---------------------------------------------------------------------
  // sys_mknod()
  // ---------------------------------------------------------------------

  /** The new inode as `sys_mknod` fills it in: the mode cut to 16 bits, a device number in zone 0 for a device file, the times, dirty. */
  function Made(i: MInode, mode: int, dev: int, now: u32): (r: MInode)
    requires i.Valid()
    ensures r.Valid() && r.d.mode == mode % 0x1_0000 && r.d.mtime == r.atime == r.ctime == now && r.dirt
    ensures IsBlk(mode) || IsChr(mode) ==> r.d.zone[0] == dev % 0x1_0000
    ensures r == i.(d := r.d, atime := now, ctime := now, dirt := true) &&
            r.d == i.d.(mode := r.d.mode, mtime := now, zone := r.d.zone) &&
            forall n :: 0 < n < 9 ==> r.d.zone[n] == i.d.zone[n]
  {
    var zone := if IsBlk(mode) || IsChr(mode) then i.d.zone[0 := dev % 0x1_0000] else i.d.zone;
    i.(d := i.d.(mode := mode % 0x1_0000, mtime := now, zone := zone), atime := now, ctime := now, dirt := true)
  }

  /**
   * The end of `sys_mknod` once `new_inode` gave slot `x`, the table `s2`
   * holding directory `d`: the inode filled in, then `add_entry_safely`
   * of the base name and its number; -ENOSPC when that claims no entry,
   * the inode left without links. Both references are given back.
   */
  function MknodEnd(s2: seq<MInode>, blocks: map<(int, int), Block>, d: int, x: int, name: seq<byte>,
                    mode: int, dev: int, now: u32, zoneOf: nat -> int, max: nat): (o: Outcome)
    requires 0 <= d < |s2| && 0 <= x < |s2| && d != x && s2[d].count > 0 && s2[x].count > 0
    requires s2[d].Valid() && s2[x].Valid() && BlocksOk(blocks) && max <= MAX_ENTRIES
    ensures o.err == 0 || o.err == -ENOSPC
    ensures |o.s| == |s2| && BlocksOk(o.blocks) && o.blocks.Keys == blocks.Keys
    ensures o.err != 0 ==> o.blocks == blocks
  {
    var i := Made(s2[x], mode, dev, now);
    var ins := Insert(s2[d], blocks, name, |name|, i.num % 0x1_0000, now, zoneOf, max);
    var s3 := s2[d := ins.dir];
    if ins.k == NONE then Outcome(-ENOSPC, Drop(Drop(s3[x := i.(d := i.d.(nlinks := 0))], x), d), blocks)
    else Outcome(0, Drop(Drop(s3[x := i], x), d), ins.blocks)
  }

  /** The end of `sys_mknod` (fs/namei.c:616-638) on the table `s2`. */
  method MknodEndIn(s2: seq<MInode>, blocks: map<(int, int), Block>, d: int, x: int, name: seq<byte>,
                    mode: int, dev: int, now: u32, zoneOf: nat -> int, max: nat)
    returns (o: Outcome)
    requires 0 <= d < |s2| && 0 <= x < |s2| && d != x && s2[d].count > 0 && s2[x].count > 0
    requires s2[d].Valid() && s2[x].Valid() && BlocksOk(blocks) && max <= MAX_ENTRIES
    ensures o == MknodEnd(s2, blocks, d, x, name, mode, dev, now, zoneOf, max)
  {
    var i := Made(s2[x], mode, dev, now);
    var k, dir, b := AddEntry(s2[d], blocks, name, |name|, i.num % 0x1_0000, now, zoneOf, max);
    var s3 := s2[d := dir];
    if k == NONE {
      return Outcome(-ENOSPC, Drop(Drop(s3[x := i.(d := i.d.(nlinks := 0))], x), d), blocks);
    }
    o := Outcome(0, Drop(Drop(s3[x := i], x), d), b);
  }

  /**
   * `MknodEnd` gives back both references and changes no slot but the
   * two. The new inode has the mode asked for and the time `now`; on
   * success it keeps its link and a formerly unused entry holds its
   * number and the name, on failure it has no link and the blocks are
   * untouched.
   */
  lemma MknodEffect(s2: seq<MInode>, blocks: map<(int, int), Block>, d: int, x: int, name: seq<byte>,
                    mode: int, dev: int, now: u32, zoneOf: nat -> int, max: nat)
    requires 0 <= d < |s2| && 0 <= x < |s2| && d != x && s2[d].count > 0 && s2[x].count > 0
    requires s2[d].Valid() && s2[x].Valid() && BlocksOk(blocks) && max <= MAX_ENTRIES
    ensures var o := MknodEnd(s2, blocks, d, x, name, mode, dev, now, zoneOf, max);
            o.s[x].count == s2[x].count - 1 && o.s[d].count == s2[d].count - 1 &&
            (forall j :: 0 <= j < |s2| && j != x && j != d ==> o.s[j] == s2[j]) &&
            o.s[x].d.mode == mode % 0x1_0000 && o.s[x].ctime == now && o.s[x].dev == s2[x].dev &&
            o.s[x].num == s2[x].num &&
            (IsBlk(mode) || IsChr(mode) ==> o.s[x].d.zone[0] == dev % 0x1_0000) &&
            (o.err == 0 ==> o.s[x].d.nlinks == s2[x].d.nlinks &&
                            exists key, j :: NewEntry(blocks, o.blocks, key, j, EntryFor(s2[x].num, name))) &&
            (o.err != 0 ==> o.s[x].d.nlinks == 0)
  {
    var i := Made(s2[x], mode, dev, now);
    InsertNew(s2[d], blocks, name, i.num, now, zoneOf, max);
  }

  /** `MknodEnd` dirties only slots on a device. */
  lemma MknodClean(s2: seq<MInode>, blocks: map<(int, int), Block>, d: int, x: int, name: seq<byte>,
                   mode: int, dev: int, now: u32, zoneOf: nat -> int, max: nat)
    requires 0 <= d < |s2| && 0 <= x < |s2| && d != x && s2[d].count > 0 && s2[x].count > 0
    requires Clean(s2) && s2[d].dev != 0 && s2[x].dev != 0 && BlocksOk(blocks) && max <= MAX_ENTRIES
    ensures Clean(MknodEnd(s2, blocks, d, x, name, mode, dev, now, zoneOf, max).s)
  {
  }

  /**
   * `sys_mknod(path, mode, dev)` (fs/namei.c:582-639) on the file-system
   * tables: -EPERM for anyone but the superuser, the errors of
   * `RoomFor`, -ENOSPC when `new_inode` gives nothing, else `MknodEnd`
   * from the tables `new_inode` leaves (`x`, `s2`, `b2`).
   */
  method Mknod(fs: FileSystem, t: Task, suser: bool, iget: (int, int) -> int, path: seq<byte>, mode: int, dev: int,
               now: u32, zoneOf: nat -> int, max: nat)
    returns (r: int, ghost x: int, ghost s2: seq<MInode>, ghost b2: map<(int, int), Block>)
    requires fs.Valid() && Sound(fs.inodes, fs.supers) && Igets(iget, fs.inodes) && Caller(fs.inodes, t)
    requires Iref.FreeSlotsReachable(fs) && max <= MAX_ENTRIES
    requires suser ==> Mounted(fs.inodes, fs.supers, RoomFor(fs.inodes, fs.supers, fs.blocks, t, suser, iget, path))
    modifies fs
    ensures fs.Valid() && fs.files == old(fs.files) && fs.rootDev == old(fs.rootDev)
    ensures var room := RoomFor(old(fs.inodes), old(fs.supers), old(fs.blocks), t, suser, iget, path);
            !suser || room.Taken? ==>
              r == (if suser then room.err else -EPERM) &&
              fs.inodes == old(fs.inodes) && fs.blocks == old(fs.blocks) && fs.supers == old(fs.supers)
    ensures var room := RoomFor(old(fs.inodes), old(fs.supers), old(fs.blocks), t, suser, iget, path);
            suser && room.Room? ==>
              Claimed(Hold(old(fs.inodes), room.dir), room.dir, x, s2, t, now) && BlocksOk(b2) &&
              (x == NONE ==> r == -ENOSPC && fs.inodes == Drop(s2, room.dir) && fs.blocks == b2) &&
              (x != NONE ==> var o := MknodEnd(s2, b2, room.dir, x, room.name, mode, dev, now, zoneOf, max);
                             r == o.err && fs.inodes == o.s && fs.blocks == o.blocks)
  {
    x, s2, b2 := NONE, fs.inodes, fs.blocks;
    if !suser {
      return -EPERM, x, s2, b2;
    }
    var room, s1 := RoomIn(fs.inodes, fs.supers, fs.blocks, t, suser, iget, path);
    if room.Taken? {
      return room.err, x, s2, b2;
    }
    r, x, s2, b2 := MknodHeld(fs, room.dir, room.name, t, mode, dev, now, zoneOf, max);
  }

  /** `sys_mknod` (fs/namei.c:605-638) once `dir_namei` found room under directory `d`, which it now holds. */
  method MknodHeld(fs: FileSystem, d: int, name: seq<byte>, t: Task, mode: int, dev: int,
                   now: u32, zoneOf: nat -> int, max: nat)
    returns (r: int, ghost x: int, ghost s2: seq<MInode>, ghost b2: map<(int, int), Block>)
    requires fs.Valid() && Iref.FreeSlotsReachable(fs) && max <= MAX_ENTRIES
    requires 0 <= d < NR_INODE && fs.inodes[d].count >= 0 && fs.inodes[d].dev != 0
    requires SuperOf(fs.supers, fs.inodes[d].dev) != NONE
    modifies fs
    ensures fs.Valid() && fs.files == old(fs.files) && fs.rootDev == old(fs.rootDev)
    ensures Claimed(Hold(old(fs.inodes), d), d, x, s2, t, now) && BlocksOk(b2)
    ensures x == NONE ==> r == -ENOSPC && fs.inodes == Drop(s2, d) && fs.blocks == b2
    ensures x != NONE ==> var o := MknodEnd(s2, b2, d, x, name, mode, dev, now, zoneOf, max);
                          r == o.err && fs.inodes == o.s && fs.blocks == o.blocks
  {
    var s1 := Hold(fs.inodes, d);
    Iref.FreeReachableKept(fs.inodes, fs.supers, fs.blocks, fs.blocks, d, s1[d]);
    fs.inodes := s1;
    r, x, s2, b2 := MknodIn(fs, d, name, t, mode, dev, now, zoneOf, max);
  }

  /** `sys_mknod` (fs/namei.c:612-638) from `new_inode` on, the tables holding directory `d`. */
  method MknodIn(fs: FileSystem, d: int, name: seq<byte>, t: Task, mode: int, dev: int,
                 now: u32, zoneOf: nat -> int, max: nat)
    returns (r: int, ghost x: int, ghost s2: seq<MInode>, ghost b2: map<(int, int), Block>)
    requires fs.Valid() && Iref.FreeSlotsReachable(fs) && max <= MAX_ENTRIES
    requires 0 <= d < NR_INODE && fs.inodes[d].count > 0 && fs.inodes[d].dev != 0
    requires SuperOf(fs.supers, fs.inodes[d].dev) != NONE
    modifies fs
    ensures fs.Valid() && fs.files == old(fs.files) && fs.rootDev == old(fs.rootDev)
    ensures Claimed(old(fs.inodes), d, x, s2, t, now) && BlocksOk(b2)
    ensures x == NONE ==> r == -ENOSPC && fs.inodes == Drop(s2, d) && fs.blocks == b2
    ensures x != NONE ==> var o := MknodEnd(s2, b2, d, x, name, mode, dev, now, zoneOf, max);
                          r == o.err && fs.inodes == o.s && fs.blocks == o.blocks
  {
    var slot := NewIn(fs, d, t, now);
    var s3, b3 := fs.inodes, fs.blocks;
    x, s2, b2 := slot, s3, b3;
    if slot == NONE {
      fs.inodes := Drop(s3, d);
      return -ENOSPC, x, s2, b2;
    }
    var o := MknodEndIn(s3, b3, d, slot, name, mode, dev, now, zoneOf, max);
    MknodClean(s3, b3, d, slot, name, mode, dev, now, zoneOf, max);
    fs.inodes, fs.blocks := o.s, o.blocks;
    r := o.err;
  }

  // ---------------------------------------------------------------------
  // sys_mkdir()
  // ---------------------------------------------------------------------

  /** `mode & 0777 & ~umask` on the two's-complement bits of both. */
  function Masked(mode: int, umask: int): (m: nat)
    ensures m < 0x200
  {
    AndLe(mode % 0x200, 0x1FF - umask % 0x200);
    And(mode % 0x200, 0x1FF - umask % 0x200)
  }

  /** `~u & 0777` has exactly the bits below 9 that `u` lacks. */
  lemma {:induction false} NotBit(u: nat, n: nat, k: nat)
    requires u < Pow2(n) && k < n
    ensures BitOf(Pow2(n) - 1 - u, k) == !BitOf(u, k)
  {
    var v, q, r := Pow2(n) - 1 - u, u / 2, u % 2;
    assert Pow2(n) == 2 * Pow2(n - 1);
    assert v == 2 * (Pow2(n - 1) - 1 - q) + (1 - r);
    HalfOf(v, Pow2(n - 1) - 1 - q, 1 - r);
    if k > 0 {
      NotBit(q, n - 1, k - 1);
    }
  }

  /** `a = 2b + c` with `c` a bit: halving gives `b` and the low bit is `c`. */
  lemma HalfOf(a: int, b: int, c: int)
    requires a == 2 * b + c && 0 <= c < 2
    ensures a / 2 == b && a % 2 == c
  {
  }

  /** A number below `2^n` has no bit from `n` on. */
  lemma {:induction false} HighBits(u: nat, n: nat, k: nat)
    requires u < Pow2(n) && k >= n
    ensures !BitOf(u, k)
  {
    if n == 0 {
      ZeroBits(k);
    } else {
      HighBits(u / 2, n - 1, k - 1);
    }
  }

  /** Bit `k` of `Masked(mode, umask)` is set exactly when it is a permission bit set in `mode` and clear in `umask`. */
  lemma MaskedBits(mode: int, umask: int, k: nat)
    ensures BitOf(Masked(mode, umask), k) == (k < 9 && BitOf(mode % 0x200, k) && !BitOf(umask % 0x200, k))
  {
    AndBit(mode % 0x200, 0x1FF - umask % 0x200, k);
    assert Pow2(9) == 0x200;
    if k < 9 {
      NotBit(umask % 0x200, 9, k);
    } else {
      HighBits(0x1FF - umask % 0x200, 9, k);
    }
  }

  /** The name `"."` as `strcpy` leaves it in a zeroed 14-byte field. */
  const DOT: seq<byte> := [46] + Zeros(NAME_LEN - 1)

  /** The name `".."` as `strcpy` leaves it in a zeroed 14-byte field. */
  const DOTDOT: seq<byte> := [46, 46] + Zeros(NAME_LEN - 2)

  /** The first block of a new directory: the zeroed block with `.` naming `num` and `..` naming `parent`, both cut to 16 bits. */
  function DotBlock(num: int, parent: int): (data: seq<byte>)
    ensures |data| == BLOCK_SIZE
  {
    PutEntry(PutEntry(Zeros(BLOCK_SIZE), 0, DirEntry(num % 0x1_0000, DOT)), 1, DirEntry(parent % 0x1_0000, DOTDOT))
  }

  /** The blocks once `new_block` gave `zone` and `sys_mkdir` wrote the two entries into it and released it dirty. */
  function Seeded(b: map<(int, int), Block>, dev: int, zone: int, num: int, parent: int): (r: map<(int, int), Block>)
    ensures r.Keys == b.Keys + {(dev, zone)}
  {
    b[(dev, zone) := Block(DotBlock(num, parent), true, 0)]
  }

  /**
   * The new directory inode: zone 0 the new block, 32 bytes for its two
   * entries, a second link for `.`, the mode `I_DIRECTORY` with the
   * permission bits the umask lets through, the times `now`, dirty.
   */
  function NewDir(i: MInode, zone: int, mode: int, umask: int, now: u32): (r: MInode)
    requires i.Valid() && 0 <= zone < 0x1_0000
    ensures r.Valid() && r.dev == i.dev && r.num == i.num && r.count == i.count
  {
    i.(d := i.d.(zone := i.d.zone[0 := zone], size := 32, mtime := now, nlinks := Inc(i.d.nlinks),
                 mode := S_IFDIR + Masked(mode, umask)),
       atime := now, ctime := now, dirt := true)
  }

  /**
   * The end of `sys_mkdir` once `new_inode` gave slot `x`, the table `s2`
   * holding directory `d`, and `new_block` gave `zone`: -ENOSPC without
   * a zone, the inode losing its link; otherwise the new block seeded
   * with `.` and `..`, the directory's ctime set, and `add_entry_safely`
   * of the base name; -ENOSPC when that claims no entry, the block freed
   * (no longer dirty) and the inode left without links; on success the
   * directory gains a link for `..`. Both references are given back.
   */
  function MkdirEnd(s2: seq<MInode>, b2: map<(int, int), Block>, d: int, x: int, zone: int, name: seq<byte>,
                    mode: int, umask: int, now: u32, zoneOf: nat -> int, max: nat): (o: Outcome)
    requires 0 <= d < |s2| && 0 <= x < |s2| && d != x && s2[d].count > 0 && s2[x].count > 0
    requires s2[d].Valid() && s2[x].Valid() && BlocksOk(b2) && max <= MAX_ENTRIES && 0 <= zone < 0x1_0000
    ensures o.err == 0 || o.err == -ENOSPC
    ensures |o.s| == |s2| && BlocksOk(o.blocks)
  {
    var i := s2[x];
    if zone == 0 then
      Outcome(-ENOSPC, Drop(Drop(s2[x := i.(d := i.d.(zone := i.d.zone[0 := 0], nlinks := Dec(i.d.nlinks)))], x), d), b2)
    else
      MkdirAdd(s2, Seeded(b2, i.dev, zone, i.num, s2[d].num), d, x, (i.dev, zone), NewDir(i, zone, mode, umask, now),
               name, now, zoneOf, max)
  }

  /**
   * `sys_mkdir` from `add_entry_safely` on, the new inode filled in as
   * `n` and its block `key` seeded in `b3`: on failure the block is
   * freed and `n` loses its links, on success the directory gains one.
   */
  function MkdirAdd(s2: seq<MInode>, b3: map<(int, int), Block>, d: int, x: int, key: (int, int), n: MInode,
                    name: seq<byte>, now: u32, zoneOf: nat -> int, max: nat): (o: Outcome)
    requires 0 <= d < |s2| && 0 <= x < |s2| && d != x && s2[d].count > 0 && n.count > 0
    requires s2[d].Valid() && BlocksOk(b3) && key in b3 && max <= MAX_ENTRIES
    ensures o.err == 0 || o.err == -ENOSPC
    ensures |o.s| == |s2| && BlocksOk(o.blocks)
  {
    var ins := Insert(s2[d].(ctime := now), b3, name, |name|, n.num % 0x1_0000, now, zoneOf, max);
    var s3 := s2[d := ins.dir];
    if ins.k == NONE then
      Outcome(-ENOSPC, Drop(Drop(s3[x := n.(d := n.d.(nlinks := 0))], x), d), b3[key := b3[key].(dirt := false)])
    else
      Outcome(0, Drop(Drop(s3[x := n][d := Linked(ins.dir, now)], x), d), ins.blocks)
  }

  /** The end of `sys_mkdir` (fs/namei.c:680-762) on the table `s2`, once `new_block` gave `zone`. */
  method MkdirEndIn(s2: seq<MInode>, b2: map<(int, int), Block>, d: int, x: int, zone: int, name: seq<byte>,
                    mode: int, umask: int, now: u32, zoneOf: nat -> int, max: nat)
    returns (o: Outcome)
    requires 0 <= d < |s2| && 0 <= x < |s2| && d != x && s2[d].count > 0 && s2[x].count > 0
    requires s2[d].Valid() && s2[x].Valid() && BlocksOk(b2) && max <= MAX_ENTRIES && 0 <= zone < 0x1_0000
    ensures o == MkdirEnd(s2, b2, d, x, zone, name, mode, umask, now, zoneOf, max)
  {
    var i := s2[x];
    if zone == 0 {
      return Outcome(-ENOSPC, Drop(Drop(s2[x := i.(d := i.d.(zone := i.d.zone[0 := 0], nlinks := Dec(i.d.nlinks)))], x), d), b2);
    }
    o := MkdirAddIn(s2, Seeded(b2, i.dev, zone, i.num, s2[d].num), d, x, (i.dev, zone), NewDir(i, zone, mode, umask, now),
                    name, now, zoneOf, max);
  }

  /** `sys_mkdir` (fs/namei.c:741-762) from `add_entry_safely` on. */
  method MkdirAddIn(s2: seq<MInode>, b3: map<(int, int), Block>, d: int, x: int, key: (int, int), n: MInode,
                    name: seq<byte>, now: u32, zoneOf: nat -> int, max: nat)
    returns (o: Outcome)
    requires 0 <= d < |s2| && 0 <= x < |s2| && d != x && s2[d].count > 0 && n.count > 0
    requires s2[d].Valid() && BlocksOk(b3) && key in b3 && max <= MAX_ENTRIES
    ensures o == MkdirAdd(s2, b3, d, x, key, n, name, now, zoneOf, max)
  {
    var k, dir, b := AddEntry(s2[d].(ctime := now), b3, name, |name|, n.num % 0x1_0000, now, zoneOf, max);
    var s3 := s2[d := dir];
    if k == NONE {
      return Outcome(-ENOSPC, Drop(Drop(s3[x := n.(d := n.d.(nlinks := 0))], x), d), b3[key := b3[key].(dirt := false)]);
    }
    o := Outcome(0, Drop(Drop(s3[x := n][d := Linked(dir, now)], x), d), b);
  }

  /**
   * `MkdirAdd` gives back both references and changes no slot but the
   * two. On success the new inode is `n`, the parent gained a link and
   * was changed at `now`, and a formerly unused entry of the parent holds
   * the new number and the name; a block other than the parent's entry
   * block keeps its contents. On failure `n` has no link and only `key`
   * changed, and only in its dirty flag.
   */
  lemma MkdirAddEffect(s2: seq<MInode>, b3: map<(int, int), Block>, d: int, x: int, key: (int, int), n: MInode,
                       name: seq<byte>, now: u32, zoneOf: nat -> int, max: nat)
    requires 0 <= d < |s2| && 0 <= x < |s2| && d != x && s2[d].count > 0 && n.count > 0
    requires s2[d].Valid() && BlocksOk(b3) && key in b3 && max <= MAX_ENTRIES
    ensures var o := MkdirAdd(s2, b3, d, x, key, n, name, now, zoneOf, max);
            o.s[x].count == n.count - 1 && o.s[d].count == s2[d].count - 1 &&
            (forall j :: 0 <= j < |s2| && j != x && j != d ==> o.s[j] == s2[j]) &&
            (o.err == 0 ==>
               o.s[x] == n.(count := n.count - 1) &&
               o.s[d].d.nlinks == Inc(s2[d].d.nlinks) && o.s[d].ctime == now &&
               exists k, j :: NewEntry(b3, o.blocks, k, j, EntryFor(n.num, name))) &&
            (o.err != 0 ==>
               o.s[x] == n.(count := n.count - 1, d := n.d.(nlinks := 0)) &&
               o.blocks == b3[key := b3[key].(dirt := false)])
  {
    MkdirAddSlots(s2, b3, d, x, key, n, name, now, zoneOf, max);
    InsertNew(s2[d].(ctime := now), b3, name, n.num, now, zoneOf, max);
  }

  /** The slots `MkdirAdd` leaves, as `MkdirAddEffect` states them. */
  lemma MkdirAddSlots(s2: seq<MInode>, b3: map<(int, int), Block>, d: int, x: int, key: (int, int), n: MInode,
                      name: seq<byte>, now: u32, zoneOf: nat -> int, max: nat)
    requires 0 <= d < |s2| && 0 <= x < |s2| && d != x && s2[d].count > 0 && n.count > 0
    requires s2[d].Valid() && BlocksOk(b3) && key in b3 && max <= MAX_ENTRIES
    ensures var o := MkdirAdd(s2, b3, d, x, key, n, name, now, zoneOf, max);
            o.s[x].count == n.count - 1 && o.s[d].count == s2[d].count - 1 &&
            (forall j :: 0 <= j < |s2| && j != x && j != d ==> o.s[j] == s2[j]) &&
            (o.err == 0 ==>
               o.s[x] == n.(count := n.count - 1) &&
               o.s[d].d.nlinks == Inc(s2[d].d.nlinks) && o.s[d].ctime == now) &&
            (o.err != 0 ==> o.s[x] == n.(count := n.count - 1, d := n.d.(nlinks := 0)))
  {
    var ins := Insert(s2[d].(ctime := now), b3, name, |name|, n.num % 0x1_0000, now, zoneOf, max);
    if ins.k == NONE {
      DropBoth(s2[d := ins.dir], x, n.(d := n.d.(nlinks := 0)), d, ins.dir);
    } else {
      DropBoth(s2[d := ins.dir], x, n, d, Linked(ins.dir, now));
    }
  }

  /**
   * `MkdirEnd` gives back both references and changes no slot but the
   * two. On success the new inode is a directory with two links, 32
   * bytes and the new zone, the parent gained a link and was changed at
   * `now`, and a formerly unused entry of the parent holds the new
   * number and the name. On failure the new inode has no link and no
   * block but the new one changed.
   */
  lemma MkdirEffect(s2: seq<MInode>, b2: map<(int, int), Block>, d: int, x: int, zone: int, name: seq<byte>,
                    mode: int, umask: int, now: u32, zoneOf: nat -> int, max: nat)
    requires 0 <= d < |s2| && 0 <= x < |s2| && d != x && s2[d].count > 0 && s2[x].count > 0
    requires s2[d].Valid() && s2[x].Valid() && BlocksOk(b2) && max <= MAX_ENTRIES && 0 <= zone < 0x1_0000
    requires s2[x].d.nlinks == 1
    ensures var o := MkdirEnd(s2, b2, d, x, zone, name, mode, umask, now, zoneOf, max);
            o.s[x].count == s2[x].count - 1 && o.s[d].count == s2[d].count - 1 &&
            (forall j :: 0 <= j < |s2| && j != x && j != d ==> o.s[j] == s2[j]) &&
            (o.err == 0 ==>
               zone != 0 && IsDir(o.s[x].d.mode) && o.s[x].d.nlinks == 2 && o.s[x].d.size == 32 &&
               o.s[x].d.zone[0] == zone && o.s[x].ctime == now &&
               o.s[d].d.nlinks == Inc(s2[d].d.nlinks) && o.s[d].ctime == now &&
               exists key, j :: NewEntry(Seeded(b2, s2[x].dev, zone, s2[x].num, s2[d].num), o.blocks, key, j,
                                         EntryFor(s2[x].num, name))) &&
            (o.err != 0 ==>
               o.s[x].d.nlinks == 0 && forall k :: k in b2 && k != (s2[x].dev, zone) ==> o.blocks[k] == b2[k])
  {
    if zone != 0 {
      var i := s2[x];
      var n := NewDir(i, zone, mode, umask, now);
      assert S_IFDIR + Masked(mode, umask) < 0x1_0000 && FileType(S_IFDIR + Masked(mode, umask)) == S_IFDIR;
      MkdirAddEffect(s2, Seeded(b2, i.dev, zone, i.num, s2[d].num), d, x, (i.dev, zone), n, name, now, zoneOf, max);
    }
  }

  /** The entries `.` and `..` of `DotBlock`, and nothing after them. */
  lemma DotBlockReads(num: int, parent: int, m: nat)
    requires m < DIR_ENTRIES_PER_BLOCK
    ensures EntryIn(DotBlock(num, parent), m) ==
            if m == 0 then DirEntry(num % 0x1_0000, DOT)
            else if m == 1 then DirEntry(parent % 0x1_0000, DOTDOT)
            else EntryIn(Zeros(BLOCK_SIZE), m)
  {
    var b0 := PutEntry(Zeros(BLOCK_SIZE), 0, DirEntry(num % 0x1_0000, DOT));
    PutEntryReads(b0, 1, DirEntry(parent % 0x1_0000, DOTDOT), m);
    PutEntryReads(Zeros(BLOCK_SIZE), 0, DirEntry(num % 0x1_0000, DOT), m);
  }

  /**
   * A directory `sys_mkdir` creates is one `sys_rmdir` finds empty, when
   * its number and its parent's fit the 16 bits of an entry and the
   * parent does not already use the zone `new_block` handed out.
   */
  lemma MkdirEmpty(s2: seq<MInode>, b2: map<(int, int), Block>, d: int, x: int, zone: int, name: seq<byte>,
                   mode: int, umask: int, now: u32, zoneOf: nat -> int, max: nat)
    requires 0 <= d < |s2| && 0 <= x < |s2| && d != x && s2[d].count > 0 && s2[x].count > 0
    requires s2[d].Valid() && s2[x].Valid() && BlocksOk(b2) && max <= MAX_ENTRIES && 0 <= zone < 0x1_0000
    requires 0 < s2[x].num < 0x1_0000 && 0 < s2[d].num < 0x1_0000
    requires forall n: nat :: AddZone(s2[d], zoneOf, n) != zone
    ensures var o := MkdirEnd(s2, b2, d, x, zone, name, mode, umask, now, zoneOf, max);
            o.err == 0 ==> IsEmpty(o.s[x], o.blocks)
  {
    var o := MkdirEnd(s2, b2, d, x, zone, name, mode, umask, now, zoneOf, max);
    if o.err == 0 {
      var i := s2[x];
      var key := (i.dev, zone);
      var n := NewDir(i, zone, mode, umask, now);
      MkdirAddKeeps(s2, Seeded(b2, i.dev, zone, i.num, s2[d].num), d, x, key, n, name, now, zoneOf, max);
      SeededEmpty(n, o.blocks, zone, s2[d].num);
    }
  }

  /** `MkdirAdd` leaves block `key` as it was when the parent's entry blocks do not include it. */
  lemma MkdirAddKeeps(s2: seq<MInode>, b3: map<(int, int), Block>, d: int, x: int, key: (int, int), n: MInode,
                      name: seq<byte>, now: u32, zoneOf: nat -> int, max: nat)
    requires 0 <= d < |s2| && 0 <= x < |s2| && d != x && s2[d].count > 0 && n.count > 0
    requires s2[d].Valid() && BlocksOk(b3) && key in b3 && max <= MAX_ENTRIES
    requires forall m: nat :: AddZone(s2[d], zoneOf, m) != key.1
    ensures var o := MkdirAdd(s2, b3, d, x, key, n, name, now, zoneOf, max);
            o.err == 0 ==> key in o.blocks && o.blocks[key] == b3[key] && o.s[x] == n.(count := n.count - 1)
  {
    var dir := s2[d].(ctime := now);
    var ins := Insert(dir, b3, name, |name|, n.num % 0x1_0000, now, zoneOf, max);
    InsertReads(dir, b3, name, |name|, n.num % 0x1_0000, now, zoneOf, max, 0);
    if ins.k != NONE {
      assert AddZone(dir, zoneOf, ins.k / 64) == AddZone(s2[d], zoneOf, ins.k / 64);
    }
  }

  /** A directory of 32 bytes whose zone 0 holds the block `DotBlock` seeds is one `is_empty_dir` finds empty. */
  lemma SeededEmpty(n: MInode, b: map<(int, int), Block>, zone: int, parent: int)
    requires n.Valid() && BlocksOk(b) && 0 < zone < 0x1_0000 && n.d.zone[0] == zone && n.d.size == 32
    requires 0 < n.num < 0x1_0000 && 0 < parent < 0x1_0000
    requires (n.dev, zone) in b && b[(n.dev, zone)].data == DotBlock(n.num, parent)
    ensures IsEmpty(n, b)
  {
    var view := DirView(n, b);
    assert view(0) == Read(DotBlock(n.num, parent));
    DotBlockReads(n.num, parent, 0);
    DotBlockReads(n.num, parent, 1);
    assert Header(view(0), n.num);
  }

  /** `MkdirEnd` dirties only slots on a device. */
  lemma MkdirClean(s2: seq<MInode>, b2: map<(int, int), Block>, d: int, x: int, zone: int, name: seq<byte>,
                   mode: int, umask: int, now: u32, zoneOf: nat -> int, max: nat)
    requires 0 <= d < |s2| && 0 <= x < |s2| && d != x && s2[d].count > 0 && s2[x].count > 0
    requires Clean(s2) && s2[d].dev != 0 && s2[x].dev != 0 && BlocksOk(b2) && max <= MAX_ENTRIES
    requires 0 <= zone < 0x1_0000
    ensures Clean(MkdirEnd(s2, b2, d, x, zone, name, mode, umask, now, zoneOf, max).s)
  {
  }

  /** `new_block(inode->i_dev)` halts the system unless the directory's device can hand out a zone. */
  ghost predicate ZonesReady(s: seq<MInode>, supers: seq<Super>, blocks: map<(int, int), Block>, r: Room)
  {
    r.Room? ==> 0 <= r.dir < |s| && Alloc.CanAllocate(supers, blocks, s[r.dir].dev)
  }

  /**
   * What `sys_mkdir` did once `new_inode` left the tables `s2`, `b2`,
   * `sup2` with directory `d` held: -ENOSPC without a slot `x`, else
   * `MkdirEnd` with the zone `z` that `new_block` gave, which the device
   * keeps exactly when the directory was made.
   */
  ghost predicate MkdirDid(s2: seq<MInode>, b2: map<(int, int), Block>, sup2: seq<Super>, d: int, x: int, z: int,
                           name: seq<byte>, mode: int, umask: int, now: u32, zoneOf: nat -> int, max: nat,
                           r: int, s': seq<MInode>, b': map<(int, int), Block>, sup': seq<Super>)
  {
    BlocksOk(b2) && 0 <= d < |s2| && s2[d].count > 0 && s2[d].Valid() &&
    (x == NONE ==> r == -ENOSPC && s' == Drop(s2, d) && b' == b2 && sup' == sup2) &&
    (x != NONE ==>
       0 <= x < |s2| && x != d && s2[x].count > 0 && s2[x].Valid() && 0 <= z < 0x1_0000 && max <= MAX_ENTRIES &&
       var o := MkdirEnd(s2, b2, d, x, z, name, mode, umask, now, zoneOf, max);
       r == o.err && s' == o.s && b' == o.blocks &&
       forall y :: Alloc.Allocated(sup', s2[x].dev, y) == ((r == 0 && y == z) || Alloc.Allocated(sup2, s2[x].dev, y)))
  }

  /**
   * `sys_mkdir(path, mode)` (fs/namei.c:641-762) on the file-system
   * tables: -EPERM for anyone but the superuser, the errors of
   * `RoomFor`, -ENOSPC when `new_inode` gives nothing, else `MkdirEnd`
   * from the tables `new_inode` and `new_block` leave (`x`, `s2`, `b2`,
   * zone `z`), with the zone kept exactly when the directory was made.
   */
  method Mkdir(fs: FileSystem, t: Task, suser: bool, iget: (int, int) -> int, path: seq<byte>, mode: int,
               now: u32, zoneOf: nat -> int, max: nat)
    returns (r: int, ghost x: int, ghost z: int, ghost s2: seq<MInode>, ghost b2: map<(int, int), Block>,
             ghost sup2: seq<Super>)
    requires fs.Valid() && Sound(fs.inodes, fs.supers) && Igets(iget, fs.inodes) && Caller(fs.inodes, t)
    requires Iref.FreeSlotsReachable(fs) && max <= MAX_ENTRIES
    requires suser ==> ZonesReady(fs.inodes, fs.supers, fs.blocks,
                                  RoomFor(fs.inodes, fs.supers, fs.blocks, t, suser, iget, path))
    modifies fs
    ensures fs.Valid() && fs.files == old(fs.files) && fs.rootDev == old(fs.rootDev)
    ensures var room := RoomFor(old(fs.inodes), old(fs.supers), old(fs.blocks), t, suser, iget, path);
            !suser || room.Taken? ==>
              r == (if suser then room.err else -EPERM) &&
              fs.inodes == old(fs.inodes) && fs.blocks == old(fs.blocks) && fs.supers == old(fs.supers)
    ensures var room := RoomFor(old(fs.inodes), old(fs.supers), old(fs.blocks), t, suser, iget, path);
            suser && room.Room? ==>
              Claimed(Hold(old(fs.inodes), room.dir), room.dir, x, s2, t, now) &&
              MkdirDid(s2, b2, sup2, room.dir, x, z, room.name, mode, t.umask, now, zoneOf, max,
                       r, fs.inodes, fs.blocks, fs.supers)
  {
    x, z, s2, b2, sup2 := NONE, 0, fs.inodes, fs.blocks, fs.supers;
    if !suser {
      return -EPERM, x, z, s2, b2, sup2;
    }
    var room, s1 := RoomIn(fs.inodes, fs.supers, fs.blocks, t, suser, iget, path);
    if room.Taken? {
      return room.err, x, z, s2, b2, sup2;
    }
    r, x, z, s2, b2, sup2 := MkdirHeld(fs, room.dir, room.name, t, mode, now, zoneOf, max);
  }

  /** `sys_mkdir` (fs/namei.c:670-762) once `dir_namei` found room under directory `d`, which it now holds. */
  method MkdirHeld(fs: FileSystem, d: int, name: seq<byte>, t: Task, mode: int, now: u32, zoneOf: nat -> int, max: nat)
    returns (r: int, ghost x: int, ghost z: int, ghost s2: seq<MInode>, ghost b2: map<(int, int), Block>,
             ghost sup2: seq<Super>)
    requires fs.Valid() && Iref.FreeSlotsReachable(fs) && max <= MAX_ENTRIES
    requires 0 <= d < NR_INODE && fs.inodes[d].count >= 0 && fs.inodes[d].dev != 0
    requires Alloc.CanAllocate(fs.supers, fs.blocks, fs.inodes[d].dev)
    modifies fs
    ensures fs.Valid() && fs.files == old(fs.files) && fs.rootDev == old(fs.rootDev)
    ensures Claimed(Hold(old(fs.inodes), d), d, x, s2, t, now)
    ensures MkdirDid(s2, b2, sup2, d, x, z, name, mode, t.umask, now, zoneOf, max, r, fs.inodes, fs.blocks, fs.supers)
  {
    var s1 := Hold(fs.inodes, d);
    Iref.FreeReachableKept(fs.inodes, fs.supers, fs.blocks, fs.blocks, d, s1[d]);
    fs.inodes := s1;
    r, x, z, s2, b2, sup2 := MkdirIn(fs, d, name, t, mode, now, zoneOf, max);
  }

  /** `sys_mkdir` (fs/namei.c:670-762) from `new_inode` on, the tables holding directory `d`. */
  method MkdirIn(fs: FileSystem, d: int, name: seq<byte>, t: Task, mode: int, now: u32, zoneOf: nat -> int, max: nat)
    returns (r: int, ghost x: int, ghost z: int, ghost s2: seq<MInode>, ghost b2: map<(int, int), Block>,
             ghost sup2: seq<Super>)
    requires fs.Valid() && Iref.FreeSlotsReachable(fs) && max <= MAX_ENTRIES
    requires 0 <= d < NR_INODE && fs.inodes[d].count > 0 && fs.inodes[d].dev != 0
    requires Alloc.CanAllocate(fs.supers, fs.blocks, fs.inodes[d].dev)
    modifies fs
    ensures fs.Valid() && fs.files == old(fs.files) && fs.rootDev == old(fs.rootDev)
    ensures Claimed(old(fs.inodes), d, x, s2, t, now)
    ensures MkdirDid(s2, b2, sup2, d, x, z, name, mode, t.umask, now, zoneOf, max, r, fs.inodes, fs.blocks, fs.supers)
  {
    var dev := fs.inodes[d].dev;
    var slot := NewIn(fs, d, t, now);
    var s3, sup3 := fs.inodes, fs.supers;
    x, z, s2, b2, sup2 := slot, 0, s3, fs.blocks, sup3;
    if slot == NONE {
      fs.inodes := Drop(s3, d);
      return -ENOSPC, x, z, s2, b2, sup2;
    }
    r, z, b2 := MkdirBlock(fs, d, slot, name, t, mode, now, zoneOf, max);
  }

  /**
   * `sys_mkdir` (fs/namei.c:678-762) from `new_block` on, slot `x` the
   * new inode and `d` the directory: `MkdirEnd` of the tables as
   * `new_block` leaves them (`b2`, zone `z`), `free_block` giving the
   * zone back on failure.
   */
  method MkdirBlock(fs: FileSystem, d: int, x: int, name: seq<byte>, t: Task, mode: int, now: u32,
                    zoneOf: nat -> int, max: nat)
    returns (r: int, ghost z: int, ghost b2: map<(int, int), Block>)
    requires fs.Valid() && max <= MAX_ENTRIES && 0 <= d < NR_INODE && 0 <= x < NR_INODE && d != x
    requires fs.inodes[d].count > 0 && fs.inodes[x].count > 0 && fs.inodes[d].dev != 0
    requires fs.inodes[x].dev == fs.inodes[d].dev
    requires Alloc.CanAllocate(fs.supers, fs.blocks, fs.inodes[d].dev)
    modifies fs
    ensures fs.Valid() && fs.files == old(fs.files) && fs.rootDev == old(fs.rootDev)
    ensures 0 <= z < 0x1_0000 && BlocksOk(b2)
    ensures var o := MkdirEnd(old(fs.inodes), b2, d, x, z, name, mode, t.umask, now, zoneOf, max);
            r == o.err && fs.inodes == o.s && fs.blocks == o.blocks
    ensures forall y :: Alloc.Allocated(fs.supers, old(fs.inodes[x].dev), y) ==
                        ((r == 0 && y == z) || Alloc.Allocated(old(fs.supers), old(fs.inodes[x].dev), y))
  {
    var dev, s3 := fs.inodes[x].dev, fs.inodes;
    ghost var sup3 := fs.supers;
    ghost var found, bi, bj;
    var zone;
    zone, found, bi, bj := Alloc.NewBlock(fs, dev);
    ghost var sup4 := fs.supers;
    z, b2 := zone, fs.blocks;
    r := MkdirSeed(fs, d, x, zone, name, t, mode, now, zoneOf, max);
    Accounted(sup3, sup4, fs.supers, dev, zone, r == 0);
  }

  /** `sys_mkdir` (fs/namei.c:678-762) once `new_block` gave `zone`. */
  method MkdirSeed(fs: FileSystem, d: int, x: int, zone: int, name: seq<byte>, t: Task, mode: int, now: u32,
                   zoneOf: nat -> int, max: nat)
    returns (r: int)
    requires fs.Valid() && max <= MAX_ENTRIES && 0 <= d < NR_INODE && 0 <= x < NR_INODE && d != x
    requires fs.inodes[d].count > 0 && fs.inodes[x].count > 0 && fs.inodes[d].dev != 0
    requires fs.inodes[x].dev == fs.inodes[d].dev && 0 <= zone < 0x1_0000
    requires zone != 0 ==> Alloc.Allocated(fs.supers, fs.inodes[x].dev, zone)
    modifies fs
    ensures fs.Valid() && fs.files == old(fs.files) && fs.rootDev == old(fs.rootDev)
    ensures var o := MkdirEnd(old(fs.inodes), old(fs.blocks), d, x, zone, name, mode, t.umask, now, zoneOf, max);
            r == o.err && fs.inodes == o.s && fs.blocks == o.blocks
    ensures r == 0 || zone == 0 ==> fs.supers == old(fs.supers)
    ensures r != 0 && zone != 0 ==>
              forall y :: Alloc.Allocated(fs.supers, old(fs.inodes[x].dev), y) ==
                          (y != zone && Alloc.Allocated(old(fs.supers), old(fs.inodes[x].dev), y))
  {
    var dev, s3, b3 := fs.inodes[x].dev, fs.inodes, fs.blocks;
    var o := MkdirEndIn(s3, b3, d, x, zone, name, mode, t.umask, now, zoneOf, max);
    MkdirClean(s3, b3, d, x, zone, name, mode, t.umask, now, zoneOf, max);
    if o.err != 0 && zone != 0 {
      fs.blocks := Seeded(b3, dev, zone, s3[x].num, s3[d].num);
      GiveBack(fs, dev, zone);
    }
    fs.inodes, fs.blocks := o.s, o.blocks;
    r := o.err;
  }

  /** `free_block(dev, zone)` of the zone `sys_mkdir` was handed, its buffer released: the zone is free again. */
  method GiveBack(fs: FileSystem, dev: int, zone: int)
    requires fs.Valid() && Alloc.Allocated(fs.supers, dev, zone)
    requires (dev, zone) in fs.blocks && fs.blocks[(dev, zone)].count == 0
    modifies fs
    ensures fs.Valid() && fs.inodes == old(fs.inodes) && fs.files == old(fs.files) && fs.rootDev == old(fs.rootDev)
    ensures fs.blocks == old(fs.blocks)[(dev, zone) := old(fs.blocks[(dev, zone)]).(dirt := false)]
    ensures forall y :: Alloc.Allocated(fs.supers, dev, y) == (y != zone && Alloc.Allocated(old(fs.supers), dev, y))
  {
    var freed := Alloc.FreeBlock(fs, dev, zone);
  }

  /**
   * fs/namei.c:744-747 as written: when `add_entry_safely` finds no room,
   * `sys_mkdir` frees `i_zone[0]` but leaves the pointer set, drops the
   * new directory's link count to 0 and puts it. That last `iput`
   * truncates the directory, and the first `free_block` of `truncate` is
   * of the same zone, whose bit is now clear: `free_block` halts.
   */
  lemma MkdirNoRoomAsWritten(st: Truncate.Store, dev: int, zone: seq<u16>)
    requires |zone| == 9 && BlocksOk(st.blocks) && zone[0] != 0
    requires Truncate.CanFree(st, dev, zone[0] as int) && !Alloc.HeldElsewhere(st.blocks, dev, zone[0] as int)
    ensures var st1 := Truncate.FreeIn(st, dev, zone[0] as int);
            BlocksOk(st1.blocks) && !Truncate.Runs(st1, dev, Truncate.TruncTrace(zone, st1.blocks, dev))
  {
    var z := zone[0] as int;
    var st1 := Truncate.FreeIn(st, dev, z);
    assert BlocksOk(st1.blocks);
    assert !Alloc.HeldElsewhere(st1.blocks, dev, z);
    assert !Truncate.CanFree(st1, dev, z);
    var a := Truncate.DirectFrees(zone, 0);
    assert a == Truncate.Then(Truncate.Freed(z), Truncate.DirectFrees(zone, 1));
    var b := Truncate.Cat(Truncate.IndTrace(st1.blocks, dev, zone[7]), Truncate.DindTrace(st1.blocks, dev, zone[8]));
    Truncate.RunCat(st1, dev, a, b);
  }

  /**
   * A zone `new_block` handed out and `free_block` perhaps gave back:
   * afterwards the device holds the zones it held before, and the new
   * one exactly when it was `kept`.
   */
  lemma Accounted(a: seq<Super>, b: seq<Super>, c: seq<Super>, dev: int, zone: int, kept: bool)
    requires Alloc.SupersGrew(a, b, dev, zone) && (zone != 0 ==> !Alloc.Allocated(a, dev, zone))
    requires kept ==> zone != 0 && c == b
    requires !kept ==> (zone == 0 && c == b) ||
                       (zone != 0 && forall y :: Alloc.Allocated(c, dev, y) == (y != zone && Alloc.Allocated(b, dev, y)))
    ensures forall y :: Alloc.Allocated(c, dev, y) == ((kept && y == zone) || Alloc.Allocated(a, dev, y))
  {
  }
}
