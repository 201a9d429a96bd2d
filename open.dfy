/*
 * fs/open.c: the system calls on paths and on the open-file table.
 *
 * `sys_utime`, `sys_access`, `sys_chdir`, `sys_chroot`, `sys_chmod` and
 * `sys_chown` each take the inode `namei` returns, look at or change it,
 * and give the reference back with `iput`; as in module DirOps, `iput`
 * gives the reference back and does nothing more. `sys_open` claims the
 * lowest free descriptor of the task and the lowest unused slot of the
 * file table, runs `open_namei` (module OpenNamei) and fills the slot in;
 * `sys_close` undoes it. The task is a value that the calls return
 * updated.
 */
module OpenFiles {
  import opened Layout
  import opened Records
  import opened Tables
  import opened Bits
  import opened Dirs
  import opened Namei
  import Tasks
  import Pipes
  import OpenNamei
  import Truncate
  import Iref
  import Create
  import DirOps
  import opened Bmap

  // ---------------------------------------------------------------------
  // namei() followed by iput()
  // ---------------------------------------------------------------------

  /** Only the inode table of `fs` changed. */
  twostate predicate OnlyInodes(fs: FileSystem)
    reads fs
  {
    fs.Valid() && fs.blocks == old(fs.blocks) && fs.supers == old(fs.supers) && fs.files == old(fs.files) &&
    fs.lastInode == old(fs.lastInode) && fs.rootDev == old(fs.rootDev)
  }

  /** The table after `namei` found slot `x` and `iput` gave it back: only the access time `namei` set remains. */
  function Seen(s: seq<MInode>, x: int, path: seq<byte>, now: u32): (s': seq<MInode>)
    requires 0 <= x < |s|
    ensures |s'| == |s| && forall j :: 0 <= j < |s| && j != x ==> s'[j] == s[j]
    ensures s'[x] == DirOps.Named(s, x, path, now)[x].(count := s[x].count)
  {
    if BaseStart(path) < |path| then Touched(s, x, now) else s
  }

  /** `iput` after `iget` and a touch: only the touch remains, and so does a record stored in between. */
  lemma TouchedBack(s: seq<MInode>, x: int, now: u32, i: MInode)
    requires 0 <= x < |s| && i.count == s[x].count + 1
    ensures Drop(Touched(Hold(s, x), x, now), x) == Touched(s, x, now)
    ensures Drop(Touched(Hold(s, x), x, now)[x := i], x) == Touched(s, x, now)[x := i.(count := s[x].count)]
  {
  }

  /** `iput` after `iget`: the table as it was, but for a record stored in between. */
  lemma HeldBack(s: seq<MInode>, x: int, i: MInode)
    requires 0 <= x < |s| && i.count == s[x].count + 1
    ensures Drop(Hold(s, x), x) == s
    ensures Drop(Hold(s, x)[x := i], x) == s[x := i.(count := s[x].count)]
  {
  }

  /** `iput` of the slot `namei` returned for `path` from the table `s`. */
  method Release(fs: FileSystem, ghost s: seq<MInode>, x: int, path: seq<byte>, now: u32)
    requires fs.Valid() && |s| == NR_INODE && 0 <= x < NR_INODE && fs.inodes == DirOps.Named(s, x, path, now)
    modifies fs
    ensures OnlyInodes(fs) && fs.inodes == Seen(s, x, path, now)
  {
    if BaseStart(path) < |path| {
      TouchedBack(s, x, now, fs.inodes[x]);
    } else {
      HeldBack(s, x, fs.inodes[x]);
    }
    fs.inodes := Drop(fs.inodes, x);
  }

  /** The record `i` stored in the slot `namei` returned for `path` from the table `s`, then `iput`. */
  method PutBack(fs: FileSystem, ghost s: seq<MInode>, x: int, path: seq<byte>, now: u32, i: MInode)
    requires fs.Valid() && |s| == NR_INODE && 0 <= x < NR_INODE && fs.inodes == DirOps.Named(s, x, path, now)
    requires i.Valid() && i.dev == s[x].dev && s[x].dev != 0 && i.count == s[x].count + 1
    modifies fs
    ensures OnlyInodes(fs) && fs.inodes == Seen(s, x, path, now)[x := i.(count := s[x].count)]
  {
    if BaseStart(path) < |path| {
      TouchedBack(s, x, now, i);
    } else {
      HeldBack(s, x, i);
    }
    fs.inodes := Drop(fs.inodes[x := i], x);
  }

  /** What the attribute calls may rely on: the tables sound, `iget` the oracle for them, the caller's directories held. */
  ghost predicate Ready(fs: FileSystem, t: Task, iget: (int, int) -> int)
    reads fs
  {
    fs.Valid() && Sound(fs.inodes, fs.supers) && Igets(iget, fs.inodes) && Caller(fs.inodes, t)
  }

  // ---------------------------------------------------------------------
  // sys_utime()
  // ---------------------------------------------------------------------

  /**
   * The inode after `sys_utime`: the access and modification times from
   * `times` (both `now` when no buffer is given), cut to the 32 bits of
   * the fields, and the inode dirty; nothing else changes.
   */
  function Utimed(i: MInode, times: Option<(int, int)>, now: u32): (r: MInode)
    ensures r == i.(atime := r.atime, d := i.d.(mtime := r.d.mtime), dirt := true)
    ensures times.None? ==> r.atime == now && r.d.mtime == now
    ensures times.Some? ==> r.atime == times.value.0 % 0x1_0000_0000 && r.d.mtime == times.value.1 % 0x1_0000_0000
  {
    var (a, m) := if times.Some? then (times.value.0 % 0x1_0000_0000, times.value.1 % 0x1_0000_0000) else (now as int, now as int);
    i.(atime := a, d := i.d.(mtime := m), dirt := true)
  }

  /**
   * `sys_utime(filename, times)` at time `now`: -ENOENT when `namei`
   * finds nothing; otherwise the inode takes the times of `Utimed` and
   * every reference count is as before.
   */
  method Utime(fs: FileSystem, t: Task, suser: bool, iget: (int, int) -> int, path: seq<byte>,
               times: Option<(int, int)>, now: u32)
    returns (r: int)
    requires Ready(fs, t, iget)
    modifies fs
    ensures OnlyInodes(fs)
    ensures var x := Resolve(old(fs.inodes), fs.supers, fs.blocks, t, suser, iget, path);
            (x == NONE ==> r == -ENOENT && fs.inodes == old(fs.inodes)) &&
            (x != NONE ==> r == 0 && fs.inodes == old(fs.inodes)[x := Utimed(old(fs.inodes)[x], times, now)])
  {
    ghost var s := fs.inodes;
    var x := Namei.Namei(fs, t, suser, iget, path, now);
    if x == NONE {
      return -ENOENT;
    }
    SetTimes(fs, s, x, path, times, now);
    r := 0;
  }

  /** The end of `sys_utime`, on the table `namei` left when it found slot `x` in `s`. */
  method SetTimes(fs: FileSystem, ghost s: seq<MInode>, x: int, path: seq<byte>, times: Option<(int, int)>, now: u32)
    requires fs.Valid() && |s| == NR_INODE && 0 <= x < NR_INODE && s[x].dev != 0
    requires fs.inodes == DirOps.Named(s, x, path, now)
    modifies fs
    ensures OnlyInodes(fs) && fs.inodes == s[x := Utimed(s[x], times, now)]
  {
    var i := Utimed(fs.inodes[x], times, now);
    PutBack(fs, s, x, path, now, i);
    assert i.(count := s[x].count) == Utimed(s[x], times, now);
    assert fs.inodes == s[x := Utimed(s[x], times, now)];
  }

  // ---------------------------------------------------------------------
  // sys_access()
  // ---------------------------------------------------------------------

  /** `i_mode & 0111` is not 0: someone may execute the file. */
  predicate AnyExec(mode: nat)
  {
    BitOf(mode, 0) || BitOf(mode, 3) || BitOf(mode, 6)
  }

  /**
   * `sys_access` on inode `i` for the real ids `uid`/`gid`, as written:
   * the owner's bits when `uid` owns the file, and the owner's bits again
   * when only `gid` matches (a shift by 6 where the group's bits lie 3
   * up), the others' bits otherwise; 0 when they cover the requested
   * bits `mode & 0007`, or for root unless execution is asked of a file
   * nobody may execute; -EACCES otherwise.
   */
  function AccessAsWritten(i: MInode, uid: int, gid: int, mode: int): (r: int)
    ensures r == 0 || r == -EACCES
  {
    var im := i.d.mode % 0x200;
    var m := mode % 8;
    var res := if uid == i.d.uid then im / 64 else if gid == i.d.gid then im / 64 else im;
    if And(And(res, m), 7) == m then 0
    else if uid == 0 && (m % 2 == 0 || AnyExec(im)) then 0
    else -EACCES
  }

  /** The permission bits of `i` that apply to `uid`/`gid`, in the low three bits: the owner's, the group's or the others'. */
  function Class(i: MInode, uid: int, gid: int): (r: nat)
  {
    var im := i.d.mode % 0x200;
    if uid == i.d.uid then im / 64 else if gid == i.d.gid then im / 8 else im
  }

  /** `sys_access` with the group's bits taken from where they lie, as `permission` takes them. */
  function Access(i: MInode, uid: int, gid: int, mode: int): (r: int)
    ensures r == 0 || r == -EACCES
  {
    var im := i.d.mode % 0x200;
    var m := mode % 8;
    if And(And(Class(i, uid, gid), m), 7) == m then 0
    else if uid == 0 && (m % 2 == 0 || AnyExec(im)) then 0
    else -EACCES
  }

  /** Bits 0, 1 and 2 of `a` are those of `a % 8`. */
  lemma LowBits(a: nat, k: nat)
    requires k < 3
    ensures BitOf(a, k) == BitOf(a % 8, k)
  {
    var q, r := a / 8, a % 8;
    assert a / 2 == 4 * q + r / 2;
    assert a / 2 / 2 == 2 * q + r / 2 / 2;
  }

  /** Covering a mask depends on the low three bits only. */
  lemma CoversLow(a: nat, b: nat, m: nat)
    requires a % 8 == b % 8
    ensures Covers(a, m) == Covers(b, m)
  {
    forall k | 0 <= k < 3
      ensures BitOf(a, k) == BitOf(b, k)
    {
      LowBits(a, k);
      LowBits(b, k);
    }
  }

  /** Cutting a mode to `0777` keeps the owner's, the group's and the others' bits. */
  lemma ClassBits(mode: nat)
    ensures (mode % 0x200 / 64) % 8 == (mode / 64) % 8
    ensures (mode % 0x200 / 8) % 8 == (mode / 8) % 8
    ensures (mode % 0x200) % 8 == mode % 8
  {
    var q, r := mode / 0x200, mode % 0x200;
    assert mode / 64 == 8 * q + r / 64;
    assert mode / 8 == 64 * q + r / 8;
  }

  /**
   * `sys_access` grants a linked inode, for the real ids, exactly what
   * `permission` grants a caller with those ids who is not the
   * superuser, and besides grants root everything but execution of a
   * file nobody may execute.
   */
  lemma AccessAsPermission(i: MInode, uid: int, gid: int, mode: int)
    requires !(i.dev != 0 && i.d.nlinks == 0)
    ensures var m := mode % 8;
            Access(i, uid, gid, mode) == 0 <==>
            Permission(i, uid, gid, m, false) || (uid == 0 && (m % 2 == 0 || AnyExec(i.d.mode % 0x200)))
  {
    AccessCovers(i, uid, gid, mode);
    PermissionCovers(i, uid, gid, mode % 8);
    ClassCovers(i, uid, gid, mode % 8);
  }

  /** `Access` grants what the class covers, and root more. */
  lemma AccessCovers(i: MInode, uid: int, gid: int, mode: int)
    ensures var m := mode % 8;
            Access(i, uid, gid, mode) == 0 <==>
            Covers(Class(i, uid, gid), m) || (uid == 0 && (m % 2 == 0 || AnyExec(i.d.mode % 0x200)))
  {
    MaskCovered(Class(i, uid, gid), mode % 8);
  }

  /** `permission` without the superuser grants a linked inode what its shifted class covers. */
  lemma PermissionCovers(i: MInode, uid: int, gid: int, m: nat)
    requires !(i.dev != 0 && i.d.nlinks == 0) && m < 8
    ensures Permission(i, uid, gid, m, false) <==> Covers(Shifted(i, uid, gid), m)
  {
    PermissionBits(i, uid, gid, m, false);
  }

  /** `Class` and the class `permission` shifts to agree on the low three bits. */
  lemma ClassCovers(i: MInode, uid: int, gid: int, m: nat)
    ensures Covers(Class(i, uid, gid), m) == Covers(Shifted(i, uid, gid), m)
  {
    ClassBits(i.d.mode);
    CoversLow(Class(i, uid, gid), Shifted(i, uid, gid), m);
  }

  /** A file only its group may read: as written, a member of the group who does not own it is refused. */
  lemma GroupReadRefused()
    ensures var i := ZERO_INODE.(d := ZERO_DINODE.(mode := S_IFREG + 0x20, uid := 0, gid := 7));
            AccessAsWritten(i, 1, 7, MAY_READ) == -EACCES && Access(i, 1, 7, MAY_READ) == 0
  {
    var i := ZERO_INODE.(d := ZERO_DINODE.(mode := S_IFREG + 0x20, uid := 0, gid := 7));
    assert i.d.mode % 0x200 == 0x20;
    assert And(And(0, 4), 7) == 0;
    assert And(And(4, 4), 7) == 4;
  }

  /**
   * `sys_access(filename, mode)`: -EACCES when `namei` finds nothing;
   * otherwise the answer of `AccessAsWritten` for the task's real ids,
   * with every reference count as before.
   */
  method SysAccess(fs: FileSystem, t: Task, suser: bool, iget: (int, int) -> int, path: seq<byte>, mode: int, now: u32)
    returns (r: int)
    requires Ready(fs, t, iget)
    modifies fs
    ensures OnlyInodes(fs)
    ensures var x := Resolve(old(fs.inodes), fs.supers, fs.blocks, t, suser, iget, path);
            (x == NONE ==> r == -EACCES && fs.inodes == old(fs.inodes)) &&
            (x != NONE ==> r == AccessAsWritten(old(fs.inodes)[x], t.uid, t.gid, mode) &&
                           fs.inodes == Seen(old(fs.inodes), x, path, now))
  {
    ghost var s := fs.inodes;
    var x := Namei.Namei(fs, t, suser, iget, path, now);
    if x == NONE {
      return -EACCES;
    }
    r := AccessAsWritten(fs.inodes[x], t.uid, t.gid, mode);
    Release(fs, s, x, path, now);
  }

  // ---------------------------------------------------------------------
  // sys_chdir() and sys_chroot()
  // ---------------------------------------------------------------------

  /**
   * The inode table after `sys_chdir` or `sys_chroot` moved the task from
   * directory `prev` to slot `x`: `x` keeps the reference `namei` took,
   * `prev` loses one.
   */
  function Moved(s: seq<MInode>, x: int, prev: int, path: seq<byte>, now: u32): (s': seq<MInode>)
    requires 0 <= x < |s| && 0 <= prev < |s| && s[prev].count > 0
    ensures |s'| == |s| && (x != prev ==> s'[x].count == s[x].count + 1 && s'[prev].count == s[prev].count - 1)
    ensures x == prev ==> s'[x].count == s[x].count
    ensures forall j :: 0 <= j < |s| && j != x && j != prev ==> s'[j] == s[j]
  {
    Drop(DirOps.Named(s, x, path, now), prev)
  }

  /** The checks and the move of `sys_chdir` and `sys_chroot`, on the table `namei` left; the directory given up is `prev`. */
  method ChangeDir(fs: FileSystem, ghost s: seq<MInode>, x: int, prev: int, path: seq<byte>, now: u32)
    returns (r: int)
    requires fs.Valid() && |s| == NR_INODE && 0 <= x < NR_INODE && 0 <= prev < NR_INODE && s[prev].count > 0
    requires fs.inodes == DirOps.Named(s, x, path, now)
    modifies fs
    ensures OnlyInodes(fs)
    ensures r == 0 || r == -ENOTDIR
    ensures r == 0 <==> IsDir(s[x].d.mode)
    ensures r == 0 ==> fs.inodes == Moved(s, x, prev, path, now)
    ensures r != 0 ==> fs.inodes == Seen(s, x, path, now)
  {
    if !IsDir(fs.inodes[x].d.mode) {
      Release(fs, s, x, path, now);
      return -ENOTDIR;
    }
    fs.inodes := Drop(fs.inodes, prev);
    r := 0;
  }

  /**
   * `sys_chdir(filename)`: -ENOENT when `namei` finds nothing, -ENOTDIR
   * with the reference given back when it is no directory; otherwise the
   * old working directory loses its reference and the task works in the
   * new one, which keeps the reference `namei` took.
   */
  method Chdir(fs: FileSystem, t: Task, suser: bool, iget: (int, int) -> int, path: seq<byte>, now: u32)
    returns (r: int, t': Task)
    requires Ready(fs, t, iget)
    modifies fs
    ensures OnlyInodes(fs)
    ensures var x := Resolve(old(fs.inodes), fs.supers, fs.blocks, t, suser, iget, path);
            (x == NONE ==> r == -ENOENT && t' == t && fs.inodes == old(fs.inodes)) &&
            (x != NONE && !IsDir(old(fs.inodes)[x].d.mode) ==>
               r == -ENOTDIR && t' == t && fs.inodes == Seen(old(fs.inodes), x, path, now)) &&
            (x != NONE && IsDir(old(fs.inodes)[x].d.mode) ==>
               r == 0 && t' == t.(pwd := x) && fs.inodes == Moved(old(fs.inodes), x, t.pwd, path, now))
  {
    ghost var s := fs.inodes;
    t' := t;
    var x := Namei.Namei(fs, t, suser, iget, path, now);
    if x == NONE {
      return -ENOENT, t;
    }
    r := ChangeDir(fs, s, x, t.pwd, path, now);
    if r == 0 {
      t' := t.(pwd := x);
    }
  }

  /** `sys_chroot(filename)`: as `Chdir`, for the task's root directory. */
  method Chroot(fs: FileSystem, t: Task, suser: bool, iget: (int, int) -> int, path: seq<byte>, now: u32)
    returns (r: int, t': Task)
    requires Ready(fs, t, iget)
    modifies fs
    ensures OnlyInodes(fs)
    ensures var x := Resolve(old(fs.inodes), fs.supers, fs.blocks, t, suser, iget, path);
            (x == NONE ==> r == -ENOENT && t' == t && fs.inodes == old(fs.inodes)) &&
            (x != NONE && !IsDir(old(fs.inodes)[x].d.mode) ==>
               r == -ENOTDIR && t' == t && fs.inodes == Seen(old(fs.inodes), x, path, now)) &&
            (x != NONE && IsDir(old(fs.inodes)[x].d.mode) ==>
               r == 0 && t' == t.(root := x) && fs.inodes == Moved(old(fs.inodes), x, t.root, path, now))
  {
    ghost var s := fs.inodes;
    t' := t;
    var x := Namei.Namei(fs, t, suser, iget, path, now);
    if x == NONE {
      return -ENOENT, t;
    }
    r := ChangeDir(fs, s, x, t.root, path, now);
    if r == 0 {
      t' := t.(root := x);
    }
  }

  // ---------------------------------------------------------------------
  // sys_chmod() and sys_chown()
  // ---------------------------------------------------------------------

  /** `(mode & 07777) | (i_mode & ~07777)`: the file type of `prev`, the permission and set-id bits of `mode`. */
  function ChmodMode(prev: u16, mode: int): (m: u16)
    ensures FileType(m) == FileType(prev) && m % 0x1000 == mode % 0x1000
  {
    prev / 0x1000 * 0x1000 + mode % 0x1000
  }

  /** `ChmodMode` is the only 16-bit mode with the old type and the new low twelve bits. */
  lemma ChmodModeUnique(prev: u16, mode: int, m: u16)
    requires FileType(m) == FileType(prev) && m % 0x1000 == mode % 0x1000
    ensures m == ChmodMode(prev, mode)
  {
  }

  /**
   * `sys_chmod(filename, mode)`: -ENOENT when `namei` finds nothing;
   * -EACCES, the reference given back, when the caller neither owns the
   * inode (by euid) nor is the superuser; otherwise the mode becomes
   * `ChmodMode` and the inode dirty, every reference count as before.
   */
  method Chmod(fs: FileSystem, t: Task, suser: bool, iget: (int, int) -> int, path: seq<byte>, mode: int, now: u32)
    returns (r: int)
    requires Ready(fs, t, iget)
    modifies fs
    ensures OnlyInodes(fs)
    ensures var x := Resolve(old(fs.inodes), fs.supers, fs.blocks, t, suser, iget, path);
            (x == NONE ==> r == -ENOENT && fs.inodes == old(fs.inodes)) &&
            (x != NONE && t.euid != old(fs.inodes)[x].d.uid && !suser ==>
               r == -EACCES && fs.inodes == Seen(old(fs.inodes), x, path, now)) &&
            (x != NONE && (t.euid == old(fs.inodes)[x].d.uid || suser) ==>
               var s' := Seen(old(fs.inodes), x, path, now);
               r == 0 && fs.inodes == s'[x := s'[x].(d := s'[x].d.(mode := ChmodMode(s'[x].d.mode, mode)), dirt := true)])
  {
    ghost var s := fs.inodes;
    var x := Namei.Namei(fs, t, suser, iget, path, now);
    if x == NONE {
      return -ENOENT;
    }
    var i := fs.inodes[x];
    if t.euid != i.d.uid && !suser {
      Release(fs, s, x, path, now);
      return -EACCES;
    }
    i := i.(d := i.d.(mode := ChmodMode(i.d.mode, mode)), dirt := true);
    PutBack(fs, s, x, path, now, i);
    r := 0;
  }

  /**
   * `sys_chown(filename, uid, gid)`: -ENOENT when `namei` finds nothing;
   * -EACCES, the reference given back, for a caller who is not the
   * superuser; otherwise the owner becomes `uid` cut to the 16 bits of
   * `i_uid` and the group `gid` cut to the 8 bits of `i_gid`, and the
   * inode dirty, every reference count as before.
   */
  method Chown(fs: FileSystem, t: Task, suser: bool, iget: (int, int) -> int, path: seq<byte>, uid: int, gid: int,
               now: u32)
    returns (r: int)
    requires Ready(fs, t, iget)
    modifies fs
    ensures OnlyInodes(fs)
    ensures var x := Resolve(old(fs.inodes), fs.supers, fs.blocks, t, suser, iget, path);
            (x == NONE ==> r == -ENOENT && fs.inodes == old(fs.inodes)) &&
            (x != NONE && !suser ==> r == -EACCES && fs.inodes == Seen(old(fs.inodes), x, path, now)) &&
            (x != NONE && suser ==>
               var s' := Seen(old(fs.inodes), x, path, now);
               r == 0 && fs.inodes == s'[x := s'[x].(d := s'[x].d.(uid := uid % 0x1_0000, gid := gid % 0x100), dirt := true)])
  {
    ghost var s := fs.inodes;
    var x := Namei.Namei(fs, t, suser, iget, path, now);
    if x == NONE {
      return -ENOENT;
    }
    var i := fs.inodes[x];
    if !suser {
      Release(fs, s, x, path, now);
      return -EACCES;
    }
    i := i.(d := i.d.(uid := uid % 0x1_0000, gid := gid % 0x100), dirt := true);
    PutBack(fs, s, x, path, now, i);
    r := 0;
  }

  // ---------------------------------------------------------------------
  // The lowest free descriptor and file slot
  // ---------------------------------------------------------------------

  /** The first index from `k` on where `c` is 0, or NONE. */
  function LowestFrom(c: seq<int>, k: nat): (r: int)
    requires k <= |c|
    ensures r == NONE || k <= r < |c|
    decreases |c| - k
  {
    if k == |c| then NONE else if c[k] == 0 then k else LowestFrom(c, k + 1)
  }

  /** The first index where `c` is 0, or NONE when there is none. */
  function Lowest(c: seq<int>): (r: int)
    ensures r == NONE || 0 <= r < |c|
  {
    LowestFrom(c, 0)
  }

  /** `LowestFrom` finds the first 0 from `k` on, and NONE only when there is none. */
  lemma {:induction false} LowestFromFirst(c: seq<int>, k: nat)
    requires k <= |c|
    ensures var r := LowestFrom(c, k);
            (r == NONE <==> forall j :: k <= j < |c| ==> c[j] != 0) &&
            (r != NONE ==> k <= r < |c| && c[r] == 0 && forall j :: k <= j < r ==> c[j] != 0)
    decreases |c| - k
  {
    if k < |c| && c[k] != 0 {
      LowestFromFirst(c, k + 1);
    }
  }

  /** `Lowest` is the first index holding 0, and NONE only when no index does. */
  lemma LowestFirst(c: seq<int>)
    ensures var r := Lowest(c);
            (r == NONE <==> forall j :: 0 <= j < |c| ==> c[j] != 0) &&
            (r != NONE ==> 0 <= r < |c| && c[r] == 0 && forall j :: 0 <= j < r ==> c[j] != 0)
  {
    LowestFromFirst(c, 0);
  }

  /** The scan `for (i = 0; i < n; i++) if (!c[i]) break;` over `c`: the index it stops at, NONE when it runs off the end. */
  method FirstZero(c: seq<int>) returns (k: int)
    ensures k == Lowest(c)
  {
    var i := 0;
    while i < |c|
      invariant 0 <= i <= |c| && LowestFrom(c, i) == Lowest(c)
    {
      if c[i] == 0 {
        return i;
      }
      i := i + 1;
    }
    return NONE;
  }

  /** `w & ~b`. */
  function Without(w: bv32, b: bv32): (r: bv32)
  {
    w & !b
  }

  /** `Without` clears the bits of `b` and keeps the others. */
  lemma WithoutBits(w: bv32, b: bv32)
    ensures Without(w, b) & b == 0 && Without(w, b) | (w & b) == w
  {
  }

  /** `close_on_exec &= ~(1 << fd)`. */
  function ClearExec(w: bv32, fd: int): (r: bv32)
    requires 0 <= fd < 32
  {
    Without(w, Tasks.Sig(fd + 1))
  }

  /** `ClearExec` clears bit `fd` and keeps the others. */
  lemma ClearExecBits(w: bv32, fd: int)
    requires 0 <= fd < 32
    ensures var r, b := ClearExec(w, fd), Tasks.Sig(fd + 1); r & b == 0 && r | (w & b) == w
  {
    WithoutBits(w, Tasks.Sig(fd + 1));
  }

  // ---------------------------------------------------------------------
  // sys_open()
  // ---------------------------------------------------------------------

  /**
   * The end of `sys_open` once `open_namei` handed out slot `res`, the
   * descriptor `fd` and the file slot `f` claimed: a character device of
   * major 5 (the controlling tty) for a task without one gives -EPERM,
   * the inode given back and the claims undone; a character device of
   * major 4 makes its minor the tty of a session leader without one;
   * otherwise the file slot takes the inode's mode, the flags, one
   * reference, the inode and position 0, and `fd` names it.
   */
  ghost predicate Installed(s1: seq<MInode>, files: seq<File>, t: Task, fd: int, f: int, res: int, flag: int,
                            r: int, s': seq<MInode>, files': seq<File>, t': Task)
    requires 0 <= res < |s1| && s1[res].Valid() && 0 <= f < |files| && 0 <= fd < |t.filp| < 32
  {
    var i := s1[res];
    var dev := i.d.zone[0];
    var t0 := t.(closeOnExec := ClearExec(t.closeOnExec, fd));
    if IsChr(i.d.mode) && Major(dev) == 5 && t.tty < 0 then
      s1[res].count > 0 && r == -EPERM && s' == Drop(s1, res) && files' == files && t' == t0
    else
      r == fd && s' == s1 && files' == files[f := File(i.d.mode, flag, 1, res, 0)] &&
      t' == t0.(filp := t.filp[fd := f],
                tty := if IsChr(i.d.mode) && Major(dev) == 4 && t.leader && t.tty < 0 then Minor(dev) else t.tty)
  }

  /** The end of `sys_open` on the tables, as `Installed` says. */
  method Install(fs: FileSystem, t: Task, fd: int, f: int, res: int, flag: int) returns (r: int, t': Task)
    requires fs.Valid() && 0 <= res < NR_INODE && fs.inodes[res].count > 0 && 0 <= f < NR_FILE
    requires t.Valid() && 0 <= fd < NR_OPEN
    modifies fs
    ensures fs.Valid() && fs.blocks == old(fs.blocks) && fs.supers == old(fs.supers)
    ensures fs.lastInode == old(fs.lastInode) && fs.rootDev == old(fs.rootDev)
    ensures Installed(old(fs.inodes), old(fs.files), t, fd, f, res, flag, r, fs.inodes, fs.files, t')
  {
    var i := fs.inodes[res];
    var dev := i.d.zone[0];
    t' := t.(closeOnExec := ClearExec(t.closeOnExec, fd));
    if IsChr(i.d.mode) {
      if Major(dev) == 4 {
        if t.leader && t.tty < 0 {
          t' := t'.(tty := Minor(dev));
        }
      } else if Major(dev) == 5 {
        if t.tty < 0 {
          fs.inodes := Drop(fs.inodes, res);
          return -EPERM, t';
        }
      }
    }
    fs.files := fs.files[f := File(i.d.mode, flag, 1, res, 0)];
    t' := t'.(filp := t.filp[fd := f]);
    r := fd;
  }

  /** What `sys_open` needs of the tables `s` and the store `st` for `open_namei`, as module OpenNamei states it. */
  ghost predicate OpenInputs(s: seq<MInode>, st: Truncate.Store, t: Task, suser: bool, iget: (int, int) -> int,
                             path: seq<byte>, flag: int, now: u32)
  {
    Sound(s, st.supers) && Igets(iget, s) && BlocksOk(st.blocks) && Caller(s, t) && t.Valid() &&
    var f := OpenNamei.OpenFlag(flag);
    var o := OpenNamei.OpeningFor(s, st.supers, st.blocks, t, suser, iget, path, f);
    OpenNamei.Mountable(s, st.supers, o) && OpenNamei.TruncReady(s, st.supers, st.blocks, t, suser, iget, o, f, now)
  }

  /** `OpenInputs` on the tables of `fs`, and what `open_namei` asks of `fs` itself. */
  ghost predicate OpenReady(fs: FileSystem, t: Task, suser: bool, iget: (int, int) -> int, path: seq<byte>,
                            flag: int, now: u32, max: nat)
    reads fs
  {
    fs.Valid() && Iref.FreeSlotsReachable(fs) && max <= MAX_ENTRIES &&
    OpenInputs(fs.inodes, Truncate.StoreOf(fs), t, suser, iget, path, flag, now)
  }

  /**
   * What `sys_open(path, flag, mode)` did, from the inode table `s`, the
   * store `st` and the file table `files` to `s'`, `st'` and `files'`,
   * with `fd` the lowest free descriptor and `f` the lowest file slot no
   * one uses: -EINVAL when there is no `fd`, and -EINVAL, with `fd`'s
   * close-on-exec bit cleared, when there is no `f`; otherwise
   * `open_namei` ran with the mode `mode & 0777 & ~umask` and did what
   * `OpenNamei.OpenDid` says, `e` its answer and `s1`, `st1` the tables
   * it left; when it failed its error is returned and the claims are
   * undone; otherwise the call ends as `Installed` says.
   */
  ghost predicate SysOpenDid(s: seq<MInode>, st: Truncate.Store, files: seq<File>, t: Task, suser: bool,
                             iget: (int, int) -> int, path: seq<byte>, flag: int, mode: int, now: u32,
                             zoneOf: nat -> int, max: nat, r: int, t': Task,
                             e: int, res: int, x: int, s2: seq<MInode>, b2: map<(int, int), Block>,
                             s1: seq<MInode>, st1: Truncate.Store, s': seq<MInode>, files': seq<File>, st': Truncate.Store)
    requires OpenInputs(s, st, t, suser, iget, path, flag, now)
  {
    var fd, f := Lowest(Pipes.FdHoles(t.filp)), Lowest(Pipes.FileCounts(files));
    (fd == NONE ==> r == -EINVAL && t' == t && files' == files && s' == s && st' == st) &&
    (fd != NONE && f == NONE ==>
       r == -EINVAL && t' == t.(closeOnExec := ClearExec(t.closeOnExec, fd)) && files' == files && s' == s && st' == st) &&
    (fd != NONE && f != NONE ==>
       var fl := OpenNamei.OpenFlag(flag);
       OpenNamei.OpenDid(s, st, t, suser, iget, OpenNamei.OpeningFor(s, st.supers, st.blocks, t, suser, iget, path, fl),
                         fl, Create.Masked(mode, t.umask), now, zoneOf, max, e, res, x, s2, b2, s1, st1) &&
       st' == st1 &&
       (e != 0 ==> r == e && t' == t.(closeOnExec := ClearExec(t.closeOnExec, fd)) && files' == files && s' == s1) &&
       (e == 0 ==> 0 <= res < |s1| && s1[res].Valid() && Installed(s1, files, t, fd, f, res, flag, r, s', files', t')))
  }

  /** `sys_open(filename, flag, mode)` at time `now`, as `SysOpenDid` says. */
  method SysOpen(fs: FileSystem, t: Task, suser: bool, iget: (int, int) -> int, path: seq<byte>, flag: int,
                 mode: int, now: u32, zoneOf: nat -> int, max: nat)
    returns (r: int, t': Task, ghost e: int, ghost res: int, ghost x: int, ghost s2: seq<MInode>,
             ghost b2: map<(int, int), Block>, ghost s1: seq<MInode>, ghost st1: Truncate.Store)
    requires OpenReady(fs, t, suser, iget, path, flag, now, max)
    modifies fs
    ensures fs.Valid() && fs.rootDev == old(fs.rootDev)
    ensures SysOpenDid(old(fs.inodes), old(Truncate.StoreOf(fs)), old(fs.files), t, suser, iget, path, flag, mode, now,
                       zoneOf, max, r, t', e, res, x, s2, b2, s1, st1, fs.inodes, fs.files, Truncate.StoreOf(fs))
  {
    e, res, x, s2, b2, s1, st1 := 0, NONE, NONE, [], map[], fs.inodes, Truncate.StoreOf(fs);
    var fd := FirstZero(Pipes.FdHoles(t.filp));
    if fd == NONE {
      return -EINVAL, t, e, res, x, s2, b2, s1, st1;
    }
    t' := t.(closeOnExec := ClearExec(t.closeOnExec, fd));
    var f := FirstZero(Pipes.FileCounts(fs.files));
    if f == NONE {
      return -EINVAL, t', e, res, x, s2, b2, s1, st1;
    }
    var r0, slot;
    r0, slot, x, s2, b2 := OpenNamei.Open(fs, t, suser, iget, path, flag, Create.Masked(mode, t.umask), now, zoneOf, max);
    e, res, s1, st1 := r0, slot, fs.inodes, Truncate.StoreOf(fs);
    if r0 < 0 {
      return r0, t', e, res, x, s2, b2, s1, st1;
    }
    OpenedSlot(old(fs.inodes), old(Truncate.StoreOf(fs)), t, suser, iget,
               OpenNamei.OpeningFor(old(fs.inodes), old(fs.supers), old(fs.blocks), t, suser, iget, path,
                                    OpenNamei.OpenFlag(flag)),
               OpenNamei.OpenFlag(flag), Create.Masked(mode, t.umask), now, zoneOf, max, e, res, x, s2, b2, s1, st1);
    r, t' := Install(fs, t, fd, f, slot, flag);
  }

  /** `open_namei` answers 0 or an error, and on 0 hands out a held slot of the table it leaves. */
  lemma OpenedSlot(s: seq<MInode>, st: Truncate.Store, t: Task, suser: bool, iget: (int, int) -> int,
                   o: OpenNamei.Opening, f: int, mode: int, now: u32, zoneOf: nat -> int, max: nat,
                   r: int, res: int, x: int, s2: seq<MInode>, b2: map<(int, int), Block>,
                   s': seq<MInode>, st': Truncate.Store)
    requires Igets(iget, s) && BlocksOk(st.blocks) && OpenNamei.TruncReady(s, st.supers, st.blocks, t, suser, iget, o, f, now)
    requires o.Whole? || o.Absent? ==> 0 <= o.dir < |s|
    requires o.Refused? ==> o.err < 0
    requires OpenNamei.OpenDid(s, st, t, suser, iget, o, f, mode, now, zoneOf, max, r, res, x, s2, b2, s', st')
    ensures r <= 0
    ensures r == 0 ==> 0 <= res < |s'| && s'[res].count > 0
  {
    match o
    case Refused(_) =>
    case Whole(_) =>
    case Absent(d, name) =>
      if x != NONE {
        var e := OpenNamei.OpenEnd(s2, b2, d, x, name, OpenNamei.OpenMode(mode, t.umask), t, now, zoneOf, max);
        assert r == e.err;
        if r == 0 {
          assert s'[x].count == s2[x].count;
        }
      }
    case Present(dev, ino) =>
      var e := OpenNamei.Reopen(s, t, suser, iget, dev, ino, f, now);
      if r == 0 {
        assert e.s[res].count > 0;
      }
  }

  /** `sys_creat(pathname, mode)`: `sys_open` with O_CREAT and O_TRUNC. */
  method Creat(fs: FileSystem, t: Task, suser: bool, iget: (int, int) -> int, path: seq<byte>, mode: int, now: u32,
               zoneOf: nat -> int, max: nat)
    returns (r: int, t': Task, ghost e: int, ghost res: int, ghost x: int, ghost s2: seq<MInode>,
             ghost b2: map<(int, int), Block>, ghost s1: seq<MInode>, ghost st1: Truncate.Store)
    requires OpenReady(fs, t, suser, iget, path, O_CREAT + O_TRUNC, now, max)
    modifies fs
    ensures fs.Valid() && fs.rootDev == old(fs.rootDev)
    ensures SysOpenDid(old(fs.inodes), old(Truncate.StoreOf(fs)), old(fs.files), t, suser, iget, path, O_CREAT + O_TRUNC,
                       mode, now, zoneOf, max, r, t', e, res, x, s2, b2, s1, st1, fs.inodes, fs.files, Truncate.StoreOf(fs))
  {
    r, t', e, res, x, s2, b2, s1, st1 := SysOpen(fs, t, suser, iget, path, O_CREAT + O_TRUNC, mode, now, zoneOf, max);
  }

  // ---------------------------------------------------------------------
  // sys_close()
  // ---------------------------------------------------------------------

  /** Every descriptor of `t` names a file slot of `files` in use, whose inode slot in `s` is held. */
  ghost predicate Opens(s: seq<MInode>, files: seq<File>, t: Task)
  {
    t.Valid() && |files| == NR_FILE && |s| == NR_INODE &&
    forall k :: 0 <= k < NR_OPEN && t.filp[k] != NONE ==>
      0 <= t.filp[k] < NR_FILE && files[t.filp[k]].count > 0 &&
      0 <= files[t.filp[k]].inode < NR_INODE && s[files[t.filp[k]].inode].count > 0
  }

  /** What `sys_close` returns and leaves: its answer, the task, the file table and the inode table. */
  datatype Closing = Closing(r: int, t: Task, files: seq<File>, inodes: seq<MInode>)

  /**
   * `sys_close(fd)`, `fd` read as unsigned: -EINVAL, nothing changed, for
   * a descriptor out of range; -EINVAL with only the close-on-exec bit
   * cleared for an empty one; otherwise 0, the descriptor emptied and its
   * close-on-exec bit cleared, the file slot one reference fewer, and the
   * inode one reference fewer exactly when that was the file's last.
   */
  function Closed(s: seq<MInode>, files: seq<File>, t: Task, fd: int): (c: Closing)
    requires Opens(s, files, t)
    ensures c.r == 0 || c.r == -EINVAL
    ensures c.r == 0 <==> 0 <= fd < NR_OPEN && t.filp[fd] != NONE
    ensures !(0 <= fd < NR_OPEN) ==> c == Closing(-EINVAL, t, files, s)
    ensures 0 <= fd < NR_OPEN ==>
              c.t == t.(closeOnExec := ClearExec(t.closeOnExec, fd), filp := c.t.filp) &&
              |c.t.filp| == NR_OPEN && c.t.filp[fd] == NONE && forall k :: 0 <= k < NR_OPEN && k != fd ==> c.t.filp[k] == t.filp[k]
    ensures c.r != 0 ==> c.files == files && c.inodes == s
    ensures c.r == 0 ==>
              var f := t.filp[fd];
              |c.files| == |files| && c.files[f] == files[f].(count := files[f].count - 1) &&
              (forall k :: 0 <= k < |files| && k != f ==> c.files[k] == files[k]) &&
              |c.inodes| == |s| && (forall k :: 0 <= k < |s| && k != files[f].inode ==> c.inodes[k] == s[k]) &&
              c.inodes[files[f].inode].count == s[files[f].inode].count - (if files[f].count == 1 then 1 else 0)
  {
    if !(0 <= fd < NR_OPEN) then Closing(-EINVAL, t, files, s)
    else
      var t1 := t.(closeOnExec := ClearExec(t.closeOnExec, fd));
      var f := t.filp[fd];
      if f == NONE then Closing(-EINVAL, t1, files, s)
      else
        var file := files[f];
        var files' := files[f := file.(count := file.count - 1)];
        Closing(0, t1.(filp := t.filp[fd := NONE]), files', if file.count - 1 != 0 then s else Drop(s, file.inode))
  }

  /** `sys_close(fd)` drops the last reference to an open file, so its inode is put. */
  predicate LastClose(files: seq<File>, t: Task, fd: int)
    requires t.Valid() && |files| == NR_FILE
  {
    0 <= fd < NR_OPEN && t.filp[fd] != NONE && 0 <= t.filp[fd] < NR_FILE && files[t.filp[fd]].count == 1
  }

  /** `sys_close(fd)` runs without a fatal error: the `iput` a last close makes can. */
  ghost predicate CanClose(fs: FileSystem, t: Task, fd: int)
    reads fs
    requires fs.Valid() && Opens(fs.inodes, fs.files, t)
  {
    LastClose(fs.files, t, fd) ==> Iref.CanPut(fs, fs.files[t.filp[fd]].inode)
  }

  /**
   * `sys_close(fd)` on the tables of `fs`: the answer, the task and the
   * file table as `Closed` says, and every inode's reference count too;
   * the last close of a file puts its inode with `iput`, whose effect on
   * the inodes, superblocks and blocks `Iref.IputDid` states, and
   * returns as `page` the page a pipe's last holder frees. Any other
   * close leaves inodes, superblocks and blocks alone.
   */
  method Close(fs: FileSystem, t: Task, fd: int, now: u32) returns (r: int, t': Task, page: int)
    requires fs.Valid() && Opens(fs.inodes, fs.files, t) && CanClose(fs, t, fd)
    modifies fs
    ensures fs.Valid()
    ensures var c := Closed(old(fs.inodes), old(fs.files), t, fd);
            r == c.r && t' == c.t && fs.files == c.files &&
            forall k :: 0 <= k < NR_INODE ==> fs.inodes[k].count == c.inodes[k].count
    ensures fs.lastInode == old(fs.lastInode) && fs.rootDev == old(fs.rootDev)
    ensures !LastClose(old(fs.files), t, fd) ==>
              page == 0 && fs.inodes == old(fs.inodes) && fs.supers == old(fs.supers) && fs.blocks == old(fs.blocks)
    ensures LastClose(old(fs.files), t, fd) ==>
              Iref.IputDid(old(fs.inodes), old(Truncate.StoreOf(fs)), old(fs.files[t.filp[fd]].inode),
                           fs.inodes, Truncate.StoreOf(fs), page)
  {
    page := 0;
    if !(0 <= fd < NR_OPEN) {
      return -EINVAL, t, 0;
    }
    t' := t.(closeOnExec := ClearExec(t.closeOnExec, fd));
    var f := t.filp[fd];
    if f == NONE {
      return -EINVAL, t', 0;
    }
    t' := t'.(filp := t.filp[fd := NONE]);
    var file := fs.files[f];
    fs.files := fs.files[f := file.(count := file.count - 1)];
    if file.count - 1 != 0 {
      return 0, t', 0;
    }
    page := Iref.Iput(fs, file.inode, now);
    r := 0;
  }

  /**
   * Closing the descriptor `sys_open` just handed out gives back what it
   * claimed: the descriptor is free again, the file slot is unused again,
   * and the inode loses the reference `open_namei` took.
   */
  lemma CloseUndoesOpen(s1: seq<MInode>, files: seq<File>, t: Task, fd: int, f: int, res: int, flag: int,
                        r: int, s': seq<MInode>, files': seq<File>, t': Task)
    requires Opens(s1, files, t) && 0 <= fd < NR_OPEN && t.filp[fd] == NONE
    requires 0 <= f < NR_FILE && files[f].count == 0
    requires 0 <= res < NR_INODE && s1[res].Valid() && s1[res].count > 0
    requires Installed(s1, files, t, fd, f, res, flag, r, s', files', t') && r == fd
    ensures Opens(s', files', t')
    ensures var c := Closed(s', files', t', fd);
            c.r == 0 && c.t.filp == t.filp && c.inodes == Drop(s1, res) &&
            c.files[f].count == 0 && forall k :: 0 <= k < NR_FILE && k != f ==> c.files[k] == files[k]
  {
    forall k | 0 <= k < NR_OPEN && t'.filp[k] != NONE
      ensures 0 <= t'.filp[k] < NR_FILE && files'[t'.filp[k]].count > 0 &&
              0 <= files'[t'.filp[k]].inode < NR_INODE && s'[files'[t'.filp[k]].inode].count > 0
    {
      if k != fd {
        assert t'.filp[k] == t.filp[k] != f;
      }
    }
    assert t.filp[fd := f][fd := NONE] == t.filp;
  }
}
