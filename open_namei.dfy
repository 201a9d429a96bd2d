/*
 * `open_namei` (fs/namei.c:490-580): the walk `sys_open` makes. It takes
 * the directory from `dir_namei`, looks the base name up with
 * `find_entry`, and either creates a regular file there (the tail is as
 * in `sys_mknod`, module Create) or hands out the inode it found, its
 * access time set and, under O_TRUNC, truncated (module Truncate).
 *
 * The checks up to `find_entry` are the function `OpeningFor`; the
 * creation from `new_inode` on is `OpenEnd` of the tables `new_inode`
 * leaves; the found case is `Reopen`. The methods on the file-system
 * tables tie them together. `iput` gives the reference back and nothing
 * more, as in module DirOps.
 */
module OpenNamei {
  import opened Layout
  import opened Bits
  import opened Records
  import opened Tables
  import opened Bmap
  import opened Dirs
  import opened Namei
  import opened DirOps
  import Create
  import Alloc
  import Iref
  import Truncate

  // ---------------------------------------------------------------------
  // Flags and mode
  // ---------------------------------------------------------------------

  /**
   * `flag` after `if ((flag & O_TRUNC) && !(flag & O_ACCMODE)) flag |=
   * O_WRONLY`: a truncating open for reading becomes one for writing, and
   * no other flag changes.
   */
  function OpenFlag(flag: int): (f: int)
    ensures AccMode(f) == if HasFlag(flag, O_TRUNC) && AccMode(flag) == O_RDONLY then O_WRONLY else AccMode(flag)
    ensures HasFlag(f, O_CREAT) == HasFlag(flag, O_CREAT) && HasFlag(f, O_EXCL) == HasFlag(flag, O_EXCL)
    ensures HasFlag(f, O_TRUNC) == HasFlag(flag, O_TRUNC)
  {
    if HasFlag(flag, O_TRUNC) && AccMode(flag) == O_RDONLY then
      LowBitSet(flag);
      flag + O_WRONLY
    else flag
  }

  /** Setting bit 0 of a number whose two low bits are clear changes neither O_CREAT, O_EXCL nor O_TRUNC. */
  lemma LowBitSet(flag: int)
    requires flag % 4 == 0
    ensures AccMode(flag + 1) == O_WRONLY
    ensures HasFlag(flag + 1, O_CREAT) == HasFlag(flag, O_CREAT) && HasFlag(flag + 1, O_EXCL) == HasFlag(flag, O_EXCL)
    ensures HasFlag(flag + 1, O_TRUNC) == HasFlag(flag, O_TRUNC)
  {
    LowBit4(flag);
    LowBit128(flag);
    LowBit256(flag);
    LowBit1024(flag);
  }

  lemma LowBit4(flag: int)
    requires flag % 4 == 0
    ensures AccMode(flag + 1) == O_WRONLY
  {
    assert (flag + 1) % 4 == flag % 4 + 1;
  }

  lemma LowBit128(flag: int)
    requires flag % 4 == 0
    ensures HasFlag(flag + 1, O_CREAT) == HasFlag(flag, O_CREAT)
  {
    assert (flag + 1) % 0x80 == flag % 0x80 + 1 && flag % 0x80 != 0x3F;
  }

  lemma LowBit256(flag: int)
    requires flag % 4 == 0
    ensures HasFlag(flag + 1, O_EXCL) == HasFlag(flag, O_EXCL)
  {
    assert (flag + 1) % 0x100 == flag % 0x100 + 1 && flag % 0x100 != 0x7F;
  }

  lemma LowBit1024(flag: int)
    requires flag % 4 == 0
    ensures HasFlag(flag + 1, O_TRUNC) == HasFlag(flag, O_TRUNC)
  {
    assert (flag + 1) % 0x400 == flag % 0x400 + 1 && flag % 0x400 != 0x1FF;
  }

  /** `ACC_MODE(flag)`, the byte of `"\004\002\006\377"` the access mode picks, read as a signed char. */
  function AccMask(flag: int): (m: int)
  {
    [MAY_READ, MAY_WRITE, MAY_READ + MAY_WRITE, -1][AccMode(flag)]
  }

  /**
   * `permission(inode, ACC_MODE(flag))` grants reading for O_RDONLY,
   * writing for O_WRONLY, both for O_RDWR, and the fourth access mode to
   * the superuser only; an inode on a device without links to nobody.
   */
  lemma AccMaskGrants(i: MInode, euid: int, egid: int, flag: int, suser: bool)
    ensures var x := Shifted(i, euid, egid);
            Permission(i, euid, egid, AccMask(flag), suser) <==>
            !(i.dev != 0 && i.d.nlinks == 0) &&
            (suser ||
             (AccMode(flag) == O_RDONLY && BitOf(x, 2)) ||
             (AccMode(flag) == O_WRONLY && BitOf(x, 1)) ||
             (AccMode(flag) == O_RDWR && BitOf(x, 2) && BitOf(x, 1)))
  {
    var m := AccMask(flag);
    PermissionBits(i, euid, egid, m, suser);
    assert BitOf(4, 2) && !BitOf(4, 1) && !BitOf(4, 0);
    assert !BitOf(2, 2) && BitOf(2, 1) && !BitOf(2, 0);
    assert BitOf(6, 2) && BitOf(6, 1) && !BitOf(6, 0);
  }

  /** `(mode & 0777 & ~current->umask) | I_REGULAR`: a regular file with the permission bits the mask lets through. */
  function OpenMode(mode: int, umask: int): (m: nat)
    ensures m < 0x1_0000 && IsReg(m) && m % 0x200 == Create.Masked(mode, umask)
  {
    S_IFREG + Create.Masked(mode, umask)
  }

  // ---------------------------------------------------------------------
  // The checks before new_inode or iget
  // ---------------------------------------------------------------------

  /**
   * Where the checks leave `open_namei`: an error; the directory itself
   * (a path ending in `/`, opened for reading only); the directory to
   * create the base name in; or the device and number of the inode the
   * base name names, the directory given back.
   */
  datatype Opening = Refused(err: int) | Whole(dir: int) | Absent(dir: int, name: seq<byte>) | Present(dev: int, ino: int)

  /**
   * The checks of `open_namei` with the flags `f` already adjusted:
   * -ENOENT without a directory; for an empty base name the directory,
   * or -EISDIR when `f` asks to write, create or truncate; after
   * `find_entry`, the inode found, or else -ENOENT without O_CREAT and
   * -EACCES when the directory `find_entry` ended in is not writable.
   */
  function OpeningFor(s: seq<MInode>, supers: seq<Super>, blocks: map<(int, int), Block>, t: Task, suser: bool,
                      iget: (int, int) -> int, path: seq<byte>, f: int): (r: Opening)
    requires Sound(s, supers) && Igets(iget, s) && BlocksOk(blocks) && Caller(s, t)
    ensures r.Refused? ==> r.err == -ENOENT || r.err == -EISDIR || r.err == -EACCES
    ensures r.Whole? ==> 0 <= r.dir < |s| && s[r.dir].dev != 0
    ensures r.Absent? ==> 0 <= r.dir < |s| && s[r.dir].dev != 0 &&
                          BaseStart(path) < |path| && r.name == path[BaseStart(path)..]
    ensures r.Present? ==> r.ino > 0
  {
    OpeningFrom(s, supers, blocks, t, suser, ParentOf(s, supers, blocks, t, suser, iget, path), f)
  }

  /** The checks of `open_namei` once `dir_namei` gave `p`. */
  function OpeningFrom(s: seq<MInode>, supers: seq<Super>, blocks: map<(int, int), Block>, t: Task, suser: bool,
                       p: Parent, f: int): (r: Opening)
    requires Sound(s, supers) && BlocksOk(blocks) && (!p.NoDir? ==> 0 <= p.dir < |s| && s[p.dir].dev != 0)
    ensures r.Refused? ==> r.err == -ENOENT || r.err == -EISDIR || r.err == -EACCES
    ensures r.Whole? ==> p.NoBase? && r.dir == p.dir
    ensures r.Absent? ==> p.Base? && 0 <= r.dir < |s| && s[r.dir].dev != 0 && r.name == p.name
    ensures r.Present? ==> r.ino > 0
  {
    if p.NoDir? then Refused(-ENOENT)
    else if p.NoBase? then
      if AccMode(f) == O_RDONLY && !HasFlag(f, O_CREAT) && !HasFlag(f, O_TRUNC) then Whole(p.dir) else Refused(-EISDIR)
    else OpeningAt(s, supers, blocks, t, suser, p.dir, p.name, f)
  }

  /**
   * The checks of `open_namei` after `find_entry` looked up `name` in
   * directory `dir`: the inode found, or else -ENOENT without O_CREAT
   * and -EACCES when the directory it ended in is not writable.
   */
  function OpeningAt(s: seq<MInode>, supers: seq<Super>, blocks: map<(int, int), Block>, t: Task, suser: bool,
                     dir: int, name: seq<byte>, f: int): (r: Opening)
    requires Sound(s, supers) && BlocksOk(blocks) && 0 <= dir < |s|
    ensures r.Refused? ==> r.err == -ENOENT || r.err == -EACCES
    ensures r.Present? <==> Seek(s, supers, blocks, t.root, dir, name).k != NONE
    ensures r.Absent? ==> r.dir == Seek(s, supers, blocks, t.root, dir, name).dir && r.name == name &&
                          Seek(s, supers, blocks, t.root, dir, name).k == NONE && HasFlag(f, O_CREAT) &&
                          Permission(s[r.dir], t.euid, t.egid, MAY_WRITE, suser)
    ensures r.Present? ==> r.ino > 0 && r.ino == Seek(s, supers, blocks, t.root, dir, name).ino
  {
    var st := Seek(s, supers, blocks, t.root, dir, name);
    SeekAt(s, supers, blocks, t.root, dir, name);
    if st.k != NONE then Present(s[st.dir].dev, st.ino)
    else if !HasFlag(f, O_CREAT) then Refused(-ENOENT)
    else if !Permission(s[st.dir], t.euid, t.egid, MAY_WRITE, suser) then Refused(-EACCES)
    else Absent(st.dir, name)
  }

  /**
   * `open_namei` agrees with `namei`: the directory it returns for a
   * path ending in `/` and the inode it finds are the ones `namei`
   * returns; it creates only where `namei` finds nothing and O_CREAT is
   * set; and where `namei` finds no entry it refuses with -ENOENT or
   * -EACCES or creates.
   */
  lemma OpeningResolves(s: seq<MInode>, supers: seq<Super>, blocks: map<(int, int), Block>, t: Task, suser: bool,
                        iget: (int, int) -> int, path: seq<byte>, f: int)
    requires Sound(s, supers) && Igets(iget, s) && BlocksOk(blocks) && Caller(s, t)
    ensures var o, r := OpeningFor(s, supers, blocks, t, suser, iget, path, f),
                        Resolve(s, supers, blocks, t, suser, iget, path);
            (o.Whole? ==> r == o.dir && BaseStart(path) == |path|) &&
            (o.Absent? ==> r == NONE && HasFlag(f, O_CREAT)) &&
            (o.Present? ==> r == iget(o.dev, o.ino)) &&
            (o == Refused(-EISDIR) ==> r != NONE && BaseStart(path) == |path|) &&
            (r == NONE && !o.Present? ==> o.Absent? || o == Refused(-ENOENT) || o == Refused(-EACCES))
  {
    var p := ParentOf(s, supers, blocks, t, suser, iget, path);
    ResolveByParent(s, supers, blocks, t, suser, iget, path);
    if p.Base? {
      SeekAt(s, supers, blocks, t.root, p.dir, p.name);
    }
  }

  /** `namei` is `dir_namei` followed, for a non-empty base name, by `Enter`. */
  lemma ResolveByParent(s: seq<MInode>, supers: seq<Super>, blocks: map<(int, int), Block>, t: Task, suser: bool,
                        iget: (int, int) -> int, path: seq<byte>)
    requires Sound(s, supers) && Igets(iget, s) && BlocksOk(blocks) && Caller(s, t)
    ensures Resolve(s, supers, blocks, t, suser, iget, path) ==
            match ParentOf(s, supers, blocks, t, suser, iget, path)
            case NoDir => NONE
            case NoBase(d) => d
            case Base(d, name) => Enter(s, supers, blocks, t.root, iget, d, name)
  {
  }

  /** The checks on the table `s`: the table ends holding the directory it returns or creates in. */
  method OpeningIn(s: seq<MInode>, supers: seq<Super>, blocks: map<(int, int), Block>, t: Task, suser: bool,
                   iget: (int, int) -> int, path: seq<byte>, f: int)
    returns (r: Opening, s': seq<MInode>)
    requires Sound(s, supers) && Igets(iget, s) && BlocksOk(blocks) && Caller(s, t)
    ensures r == OpeningFor(s, supers, blocks, t, suser, iget, path, f)
    ensures s' == match r
                  case Whole(d) => Hold(s, d)
                  case Absent(d, _) => Hold(s, d)
                  case _ => s
  {
    var p, s1 := ParentIn(s, supers, blocks, t, suser, iget, path);
    r, s' := OpeningFromIn(s, s1, supers, blocks, t, suser, p, f);
  }

  /** The checks once `dir_namei` gave `p` and left the table `s1`. */
  method OpeningFromIn(s: seq<MInode>, s1: seq<MInode>, supers: seq<Super>, blocks: map<(int, int), Block>,
                       t: Task, suser: bool, p: Parent, f: int)
    returns (r: Opening, s': seq<MInode>)
    requires Sound(s, supers) && BlocksOk(blocks) && (!p.NoDir? ==> 0 <= p.dir < |s| && s[p.dir].dev != 0)
    requires s1 == if p.NoDir? then s else Hold(s, p.dir)
    ensures r == OpeningFrom(s, supers, blocks, t, suser, p, f)
    ensures s' == match r
                  case Whole(d) => Hold(s, d)
                  case Absent(d, _) => Hold(s, d)
                  case _ => s
  {
    if p.NoDir? {
      return Refused(-ENOENT), s1;
    }
    HoldDrop(s, p.dir);
    if p.NoBase? {
      if AccMode(f) == O_RDONLY && !HasFlag(f, O_CREAT) && !HasFlag(f, O_TRUNC) {
        return Whole(p.dir), s1;
      }
      return Refused(-EISDIR), Drop(s1, p.dir);
    }
    r, s' := OpeningAtIn(s1, s, supers, blocks, t, suser, p.dir, p.name, f);
  }

  /** The checks after `find_entry` on the table `s`, which holds `dir`: the table ends holding the directory to create in. */
  method OpeningAtIn(s: seq<MInode>, ghost s0: seq<MInode>, supers: seq<Super>, blocks: map<(int, int), Block>,
                     t: Task, suser: bool, dir: int, name: seq<byte>, f: int)
    returns (r: Opening, s': seq<MInode>)
    requires Sound(s0, supers) && BlocksOk(blocks) && 0 <= dir < |s0| && s == Hold(s0, dir)
    ensures r == OpeningAt(s0, supers, blocks, t, suser, dir, name, f)
    ensures s' == if r.Absent? then Hold(s0, r.dir) else s0
  {
    var d, k, ino, s2 := FindIn(s, s0, supers, blocks, t.root, dir, name);
    SeekAt(s0, supers, blocks, t.root, dir, name);
    HoldDrop(s0, d);
    if k != NONE {
      return Present(s2[d].dev, ino), Drop(s2, d);
    }
    if !HasFlag(f, O_CREAT) {
      return Refused(-ENOENT), Drop(s2, d);
    }
    if !Permission(s2[d], t.euid, t.egid, MAY_WRITE, suser) {
      return Refused(-EACCES), Drop(s2, d);
    }
    return Absent(d, name), s2;
  }

  // ---------------------------------------------------------------------
  // An inode found
  // ---------------------------------------------------------------------

  /** What `open_namei` returns: 0 or an error, and the slot handed out (NONE on error). */
  datatype Opened = Opened(err: int, res: int, s: seq<MInode>)

  /**
   * `open_namei` once `find_entry` found inode `ino` of device `dev` and
   * the directory was given back, on the table `s`: -EEXIST under
   * O_EXCL, -EACCES when `iget` gives nothing, -EPERM for a directory
   * opened to write or an access `permission` refuses; otherwise the
   * inode held for the caller with its access time `now`.
   */
  function Reopen(s: seq<MInode>, t: Task, suser: bool, iget: (int, int) -> int, dev: int, ino: int, f: int,
                  now: u32): (o: Opened)
    requires Igets(iget, s)
    ensures |o.s| == |s|
    ensures o.err == 0 || o.err == -EEXIST || o.err == -EACCES || o.err == -EPERM
    ensures o.err != 0 ==> o.res == NONE && o.s == s
    ensures o.err == 0 ==> 0 <= o.res < |s| && o.res == iget(dev, ino)
  {
    if HasFlag(f, O_EXCL) then Opened(-EEXIST, NONE, s)
    else
      var x := iget(dev, ino);
      if x == NONE then Opened(-EACCES, NONE, s)
      else if (IsDir(s[x].d.mode) && AccMode(f) != O_RDONLY) || !Permission(s[x], t.euid, t.egid, AccMask(f), suser) then
        Opened(-EPERM, NONE, s)
      else
        Opened(0, x, s[x := s[x].(count := s[x].count + 1, atime := now)])
  }

  /**
   * An inode `open_namei` hands out without creating it: O_EXCL was not
   * set, the caller holds one more reference, its access time is `now`
   * and nothing else changed; a directory only for reading; only the
   * superuser with the fourth access mode; and never an inode on a
   * device that has no links left.
   */
  lemma ReopenEffect(s: seq<MInode>, t: Task, suser: bool, iget: (int, int) -> int, dev: int, ino: int, f: int,
                     now: u32)
    requires Igets(iget, s)
    ensures var o := Reopen(s, t, suser, iget, dev, ino, f, now);
            o.err == 0 ==>
              var x := o.res;
              !HasFlag(f, O_EXCL) && o.s[x] == s[x].(count := s[x].count + 1, atime := now) &&
              (forall j :: 0 <= j < |s| && j != x ==> o.s[j] == s[j]) &&
              (IsDir(s[x].d.mode) ==> AccMode(f) == O_RDONLY) &&
              (AccMode(f) == O_ACCMODE ==> suser) &&
              !(s[x].dev != 0 && s[x].d.nlinks == 0)
  {
    var o := Reopen(s, t, suser, iget, dev, ino, f, now);
    if o.err == 0 {
      AccMaskGrants(s[o.res], t.euid, t.egid, f, suser);
    }
  }

  /** Truncating the inode `Reopen` hands out does not halt: `free_block` can release every zone it lists. */
  ghost predicate TruncReady(s: seq<MInode>, supers: seq<Super>, blocks: map<(int, int), Block>, t: Task, suser: bool,
                             iget: (int, int) -> int, o: Opening, f: int, now: u32)
    requires Igets(iget, s) && BlocksOk(blocks)
  {
    o.Present? && HasFlag(f, O_TRUNC) ==>
      var e := Reopen(s, t, suser, iget, o.dev, o.ino, f, now);
      e.err == 0 && Truncate.Truncatable(s[e.res].d.mode) ==>
        s[e.res].d.Valid() &&
        Truncate.Runs(Truncate.Store(supers, blocks), s[e.res].dev, Truncate.TruncTrace(s[e.res].d.zone, blocks, s[e.res].dev))
  }

  /**
   * The found case from the table `s` and the store `st` to `s'` and
   * `st'`: `Reopen`, then `truncate` under O_TRUNC, which empties a
   * regular file or a directory and frees its zones as `Truncate.Run`
   * says; otherwise the store is unchanged.
   */
  ghost predicate Reopened(s: seq<MInode>, st: Truncate.Store, t: Task, suser: bool, iget: (int, int) -> int,
                           dev: int, ino: int, f: int, now: u32, r: int, res: int, s': seq<MInode>, st': Truncate.Store)
    requires Igets(iget, s) && BlocksOk(st.blocks)
    requires TruncReady(s, st.supers, st.blocks, t, suser, iget, Present(dev, ino), f, now)
  {
    var e := Reopen(s, t, suser, iget, dev, ino, f, now);
    r == e.err && res == e.res &&
    (e.err != 0 || !HasFlag(f, O_TRUNC) || !Truncate.Truncatable(e.s[res].d.mode) ==> s' == e.s && st' == st) &&
    (e.err == 0 && HasFlag(f, O_TRUNC) && Truncate.Truncatable(e.s[res].d.mode) ==>
       var i := e.s[res];
       s' == e.s[res := Truncate.Emptied(i, now)] &&
       st' == Truncate.Run(st, i.dev, Truncate.TruncTrace(i.d.zone, st.blocks, i.dev)))
  }

  /** The found case on the file-system tables, as `Reopened` says. */
  method Found(fs: FileSystem, t: Task, suser: bool, iget: (int, int) -> int, dev: int, ino: int, f: int, now: u32)
    returns (r: int, res: int)
    requires fs.Valid() && Igets(iget, fs.inodes)
    requires TruncReady(fs.inodes, fs.supers, fs.blocks, t, suser, iget, Present(dev, ino), f, now)
    modifies fs
    ensures fs.Valid() && fs.files == old(fs.files) && fs.rootDev == old(fs.rootDev)
    ensures Reopened(old(fs.inodes), old(Truncate.StoreOf(fs)), t, suser, iget, dev, ino, f, now, r, res,
                     fs.inodes, Truncate.StoreOf(fs))
  {
    var e := Reopen(fs.inodes, t, suser, iget, dev, ino, f, now);
    fs.inodes := e.s;
    r, res := e.err, e.res;
    if e.err == 0 && HasFlag(f, O_TRUNC) {
      Truncate.Truncate(fs, res, now);
    }
  }

  // ---------------------------------------------------------------------
  // A file created
  // ---------------------------------------------------------------------

  /**
   * The end of `open_namei` once `new_inode` gave slot `x`, the table
   * `s2` holding directory `d`: the inode gets the caller's uid and the
   * mode `mode`, then `add_entry_safely` of the base name and its
   * number; -ENOSPC when that claims no entry, the inode losing its link
   * and both references given back; on success the directory is given
   * back and the caller keeps the new inode.
   */
  function OpenEnd(s2: seq<MInode>, blocks: map<(int, int), Block>, d: int, x: int, name: seq<byte>, mode: nat,
                   t: Task, now: u32, zoneOf: nat -> int, max: nat): (o: Outcome)
    requires 0 <= d < |s2| && 0 <= x < |s2| && d != x && s2[d].count > 0 && s2[x].count > 0
    requires s2[d].Valid() && s2[x].Valid() && BlocksOk(blocks) && max <= MAX_ENTRIES && mode < 0x1_0000
    ensures o.err == 0 || o.err == -ENOSPC
    ensures |o.s| == |s2| && BlocksOk(o.blocks) && o.blocks.Keys == blocks.Keys
    ensures o.err != 0 ==> o.blocks == blocks
  {
    var i := s2[x].(d := s2[x].d.(uid := t.euid % 0x1_0000, mode := mode), dirt := true);
    var ins := Insert(s2[d], blocks, name, |name|, i.num % 0x1_0000, now, zoneOf, max);
    var s3 := s2[d := ins.dir];
    if ins.k == NONE then Outcome(-ENOSPC, Drop(Drop(s3[x := i.(d := i.d.(nlinks := Dec(i.d.nlinks)))], x), d), blocks)
    else Outcome(0, Drop(s3[x := i], d), ins.blocks)
  }

  /** The end of `open_namei` (fs/namei.c:535-553) on the table `s2`. */
  method OpenEndIn(s2: seq<MInode>, blocks: map<(int, int), Block>, d: int, x: int, name: seq<byte>, mode: nat,
                   t: Task, now: u32, zoneOf: nat -> int, max: nat)
    returns (o: Outcome)
    requires 0 <= d < |s2| && 0 <= x < |s2| && d != x && s2[d].count > 0 && s2[x].count > 0
    requires s2[d].Valid() && s2[x].Valid() && BlocksOk(blocks) && max <= MAX_ENTRIES && mode < 0x1_0000
    ensures o == OpenEnd(s2, blocks, d, x, name, mode, t, now, zoneOf, max)
  {
    var i := s2[x].(d := s2[x].d.(uid := t.euid % 0x1_0000, mode := mode), dirt := true);
    var k, dir, b := AddEntry(s2[d], blocks, name, |name|, i.num % 0x1_0000, now, zoneOf, max);
    var s3 := s2[d := dir];
    if k == NONE {
      return Outcome(-ENOSPC, Drop(Drop(s3[x := i.(d := i.d.(nlinks := Dec(i.d.nlinks)))], x), d), blocks);
    }
    o := Outcome(0, Drop(s3[x := i], d), b);
  }

  /**
   * `OpenEnd` gives back the directory and changes no slot but the two.
   * The new inode belongs to the caller and has the mode asked for; on
   * success the caller keeps its reference, it keeps its one link and a
   * formerly unused entry holds its number and the name; on failure it
   * has no link and the blocks are untouched.
   */
  lemma OpenEffect(s2: seq<MInode>, blocks: map<(int, int), Block>, d: int, x: int, name: seq<byte>, mode: nat,
                   t: Task, now: u32, zoneOf: nat -> int, max: nat)
    requires 0 <= d < |s2| && 0 <= x < |s2| && d != x && s2[d].count > 0 && s2[x].count > 0
    requires s2[d].Valid() && s2[x].Valid() && BlocksOk(blocks) && max <= MAX_ENTRIES && mode < 0x1_0000
    requires s2[x].d.nlinks == 1
    ensures var o := OpenEnd(s2, blocks, d, x, name, mode, t, now, zoneOf, max);
            o.s[d].count == s2[d].count - 1 &&
            (forall j :: 0 <= j < |s2| && j != x && j != d ==> o.s[j] == s2[j]) &&
            o.s[x].d.mode == mode && o.s[x].d.uid == t.euid % 0x1_0000 && o.s[x].dirt &&
            o.s[x].dev == s2[x].dev && o.s[x].num == s2[x].num &&
            (o.err == 0 ==> o.s[x].count == s2[x].count && o.s[x].d.nlinks == 1 &&
                            exists key, j :: NewEntry(blocks, o.blocks, key, j, EntryFor(s2[x].num, name))) &&
            (o.err != 0 ==> o.s[x].count == s2[x].count - 1 && o.s[x].d.nlinks == 0)
  {
    InsertNew(s2[d], blocks, name, s2[x].num, now, zoneOf, max);
  }

  /** `OpenEnd` dirties only slots on a device. */
  lemma OpenClean(s2: seq<MInode>, blocks: map<(int, int), Block>, d: int, x: int, name: seq<byte>, mode: nat,
                  t: Task, now: u32, zoneOf: nat -> int, max: nat)
    requires 0 <= d < |s2| && 0 <= x < |s2| && d != x && s2[d].count > 0 && s2[x].count > 0
    requires Clean(s2) && s2[d].dev != 0 && s2[x].dev != 0 && BlocksOk(blocks) && max <= MAX_ENTRIES
    requires mode < 0x1_0000
    ensures Clean(OpenEnd(s2, blocks, d, x, name, mode, t, now, zoneOf, max).s)
  {
  }

  /**
   * What the creating branch did once `new_inode` left the table `s2`
   * and the blocks `b2` with directory `d` held: -ENOSPC without a slot
   * `x`, else `OpenEnd`, handing out `x` on success.
   */
  ghost predicate Created(s2: seq<MInode>, b2: map<(int, int), Block>, d: int, x: int, name: seq<byte>, mode: nat,
                          t: Task, now: u32, zoneOf: nat -> int, max: nat,
                          r: int, res: int, s': seq<MInode>, b': map<(int, int), Block>)
  {
    BlocksOk(b2) && 0 <= d < |s2| && s2[d].count > 0 && s2[d].Valid() &&
    (x == NONE ==> r == -ENOSPC && res == NONE && s' == Drop(s2, d) && b' == b2) &&
    (x != NONE ==>
       0 <= x < |s2| && x != d && s2[x].count > 0 && s2[x].Valid() && max <= MAX_ENTRIES && mode < 0x1_0000 &&
       var o := OpenEnd(s2, b2, d, x, name, mode, t, now, zoneOf, max);
       r == o.err && res == (if r == 0 then x else NONE) && s' == o.s && b' == o.blocks)
  }

  /** `open_namei` (fs/namei.c:528-553) from `new_inode` on, the tables holding directory `d`. */
  method MakeFile(fs: FileSystem, d: int, name: seq<byte>, t: Task, mode: nat, now: u32, zoneOf: nat -> int, max: nat)
    returns (r: int, res: int, ghost x: int, ghost s2: seq<MInode>, ghost b2: map<(int, int), Block>)
    requires fs.Valid() && Iref.FreeSlotsReachable(fs) && max <= MAX_ENTRIES && mode < 0x1_0000
    requires 0 <= d < NR_INODE && fs.inodes[d].count > 0 && fs.inodes[d].dev != 0
    requires SuperOf(fs.supers, fs.inodes[d].dev) != NONE
    modifies fs
    ensures fs.Valid() && fs.files == old(fs.files) && fs.rootDev == old(fs.rootDev)
    ensures Create.Claimed(old(fs.inodes), d, x, s2, t, now)
    ensures Created(s2, b2, d, x, name, mode, t, now, zoneOf, max, r, res, fs.inodes, fs.blocks)
  {
    var slot := Create.NewIn(fs, d, t, now);
    var s3, b3 := fs.inodes, fs.blocks;
    x, s2, b2 := slot, s3, b3;
    if slot == NONE {
      fs.inodes := Drop(s3, d);
      return -ENOSPC, NONE, x, s2, b2;
    }
    r := MakeFileIn(fs, d, slot, name, mode, t, now, zoneOf, max);
    res := if r == 0 then slot else NONE;
  }

  /** `OpenEnd` on the tables: new inode `x` gets its mode and an entry in directory `d`. */
  method MakeFileIn(fs: FileSystem, d: int, x: int, name: seq<byte>, mode: nat, t: Task, now: u32,
                    zoneOf: nat -> int, max: nat)
    returns (r: int)
    requires fs.Valid() && max <= MAX_ENTRIES && mode < 0x1_0000
    requires 0 <= d < NR_INODE && 0 <= x < NR_INODE && d != x
    requires fs.inodes[d].count > 0 && fs.inodes[x].count > 0 && fs.inodes[d].dev != 0 && fs.inodes[x].dev != 0
    modifies fs
    ensures fs.Valid() && fs.files == old(fs.files) && fs.rootDev == old(fs.rootDev)
    ensures var o := OpenEnd(old(fs.inodes), old(fs.blocks), d, x, name, mode, t, now, zoneOf, max);
            r == o.err && fs.inodes == o.s && fs.blocks == o.blocks
  {
    var o := OpenEndIn(fs.inodes, fs.blocks, d, x, name, mode, t, now, zoneOf, max);
    OpenClean(fs.inodes, fs.blocks, d, x, name, mode, t, now, zoneOf, max);
    fs.inodes, fs.blocks := o.s, o.blocks;
    r := o.err;
  }

  // ---------------------------------------------------------------------
  // open_namei()
  // ---------------------------------------------------------------------

  /** `new_inode(dir->i_dev)` halts the system when the directory's device is not mounted. */
  ghost predicate Mountable(s: seq<MInode>, supers: seq<Super>, o: Opening)
  {
    o.Absent? ==> 0 <= o.dir < |s| && SuperOf(supers, s[o.dir].dev) != NONE
  }

  /**
   * What `open_namei` did from the table `s` and the store `st` once its
   * checks reached `o`, the flags adjusted to `f`: the error of the
   * checks with nothing changed; the directory held for a path ending in
   * `/`; the creating branch as `Created` says, with the mode
   * `OpenMode`; or the found branch as `Reopened` says.
   */
  ghost predicate OpenDid(s: seq<MInode>, st: Truncate.Store, t: Task, suser: bool, iget: (int, int) -> int,
                          o: Opening, f: int, mode: int, now: u32, zoneOf: nat -> int, max: nat,
                          r: int, res: int, x: int, s2: seq<MInode>, b2: map<(int, int), Block>,
                          s': seq<MInode>, st': Truncate.Store)
    requires Igets(iget, s) && BlocksOk(st.blocks) && TruncReady(s, st.supers, st.blocks, t, suser, iget, o, f, now)
    requires o.Whole? || o.Absent? ==> 0 <= o.dir < |s|
  {
    (o.Refused? ==> r == o.err && res == NONE && s' == s && st' == st) &&
    (o.Whole? ==> r == 0 && res == o.dir && s' == Hold(s, o.dir) && st' == st) &&
    (o.Absent? ==> Create.Claimed(Hold(s, o.dir), o.dir, x, s2, t, now) &&
                   Created(s2, b2, o.dir, x, o.name, OpenMode(mode, t.umask), t, now, zoneOf, max, r, res, s', st'.blocks)) &&
    (o.Present? ==> Reopened(s, st, t, suser, iget, o.dev, o.ino, f, now, r, res, s', st'))
  }

  /**
   * `open_namei(path, flag, mode)` (fs/namei.c:490-580) on the
   * file-system tables: the checks of `OpeningFor` on the adjusted
   * flags `OpenFlag(flag)`, then what `OpenDid` says.
   */
  method Open(fs: FileSystem, t: Task, suser: bool, iget: (int, int) -> int, path: seq<byte>, flag: int, mode: int,
              now: u32, zoneOf: nat -> int, max: nat)
    returns (r: int, res: int, ghost x: int, ghost s2: seq<MInode>, ghost b2: map<(int, int), Block>)
    requires fs.Valid() && Sound(fs.inodes, fs.supers) && Igets(iget, fs.inodes) && Caller(fs.inodes, t)
    requires Iref.FreeSlotsReachable(fs) && max <= MAX_ENTRIES
    requires var f := OpenFlag(flag);
             var o := OpeningFor(fs.inodes, fs.supers, fs.blocks, t, suser, iget, path, f);
             Mountable(fs.inodes, fs.supers, o) && TruncReady(fs.inodes, fs.supers, fs.blocks, t, suser, iget, o, f, now)
    modifies fs
    ensures fs.Valid() && fs.files == old(fs.files) && fs.rootDev == old(fs.rootDev)
    ensures OpenDid(old(fs.inodes), old(Truncate.StoreOf(fs)), t, suser, iget,
                    OpeningFor(old(fs.inodes), old(fs.supers), old(fs.blocks), t, suser, iget, path, OpenFlag(flag)),
                    OpenFlag(flag), mode, now, zoneOf, max, r, res, x, s2, b2, fs.inodes, Truncate.StoreOf(fs))
  {
    var f := OpenFlag(flag);
    var o, s1 := OpeningIn(fs.inodes, fs.supers, fs.blocks, t, suser, iget, path, f);
    r, res, x, s2, b2 := OpenAt(fs, t, suser, iget, o, s1, f, mode, now, zoneOf, max);
  }

  /** `open_namei` once its checks reached `o`, `s1` the table they left. */
  method OpenAt(fs: FileSystem, t: Task, suser: bool, iget: (int, int) -> int, o: Opening, s1: seq<MInode>, f: int,
                mode: int, now: u32, zoneOf: nat -> int, max: nat)
    returns (r: int, res: int, ghost x: int, ghost s2: seq<MInode>, ghost b2: map<(int, int), Block>)
    requires fs.Valid() && Igets(iget, fs.inodes) && Iref.FreeSlotsReachable(fs) && max <= MAX_ENTRIES
    requires o.Whole? || o.Absent? ==> 0 <= o.dir < |fs.inodes| && s1 == Hold(fs.inodes, o.dir) && fs.inodes[o.dir].dev != 0
    requires Mountable(fs.inodes, fs.supers, o) && TruncReady(fs.inodes, fs.supers, fs.blocks, t, suser, iget, o, f, now)
    modifies fs
    ensures fs.Valid() && fs.files == old(fs.files) && fs.rootDev == old(fs.rootDev)
    ensures OpenDid(old(fs.inodes), old(Truncate.StoreOf(fs)), t, suser, iget, o, f, mode, now, zoneOf, max,
                    r, res, x, s2, b2, fs.inodes, Truncate.StoreOf(fs))
  {
    x, s2, b2 := NONE, fs.inodes, fs.blocks;
    match o {
      case Refused(err) =>
        return err, NONE, x, s2, b2;
      case Whole(d) =>
        fs.inodes := s1;
        return 0, d, x, s2, b2;
      case Absent(d, name) =>
        Iref.FreeReachableKept(fs.inodes, fs.supers, fs.blocks, fs.blocks, d, s1[d]);
        fs.inodes := s1;
        r, res, x, s2, b2 := MakeFile(fs, d, name, t, OpenMode(mode, t.umask), now, zoneOf, max);
      case Present(dev, ino) =>
        r, res := Found(fs, t, suser, iget, dev, ino, f, now);
    }
  }
}
