/*
 * The directory system calls of fs/namei.c: `sys_unlink`, `sys_rmdir`,
 * `sys_link`, `sys_mknod`, `sys_mkdir` and `open_namei`.
 *
 * Each call starts like `dir_namei` (module Namei) and `find_entry`, then
 * checks, in the source's order, what makes it fail. The calls that
 * create no inode are specified by functions over the inode table and
 * the block store (`UnlinkSpec`, `RmdirSpec`, `LinkSpec`), followed by
 * value-level methods step by step and thin methods on the tables. The
 * calls that create an inode get it from `new_inode` (module Alloc), so
 * their specifications start from the tables `new_inode` leaves.
 *
 * `iput` here gives the reference back and nothing more: what the last
 * `iput` of an unlinked inode does belongs to module Iref.
 */
module DirOps {
  import opened Layout
  import opened Records
  import opened Tables
  import opened Bmap
  import opened Dirs
  import opened Namei
  import Iref
  import Truncate

  // ---------------------------------------------------------------------
  // Shared steps
  // ---------------------------------------------------------------------

  /** `i_nlinks++` on the unsigned char. */
  function Inc(n: byte): (r: byte)
    ensures n < 0xFF ==> r == n + 1
  {
    (n + 1) % 0x100
  }

  /** `i_nlinks--` on the unsigned char. */
  function Dec(n: byte): (r: byte)
    ensures n > 0 ==> r == n - 1
  {
    (n + 0xFF) % 0x100
  }

  /** `i_nlinks--` undoes `i_nlinks++`. */
  lemma IncDec(n: byte)
    ensures Dec(Inc(n)) == n && Inc(Dec(n)) == n
  {
  }

  /** The directory has the sticky bit `S_ISVTX`. */
  predicate Sticky(i: MInode)
  {
    HasFlag(i.d.mode, S_ISVTX)
  }

  /** What `dir_namei` leaves a directory call: no directory, an empty base name, or a directory and its base name. */
  datatype Parent = NoDir | NoBase(dir: int) | Base(dir: int, name: seq<byte>)

  /** `dir_namei(path)`: the directory `get_dir_i` returns and the bytes after the last `/`. */
  function ParentOf(s: seq<MInode>, supers: seq<Super>, blocks: map<(int, int), Block>, t: Task, suser: bool,
                    iget: (int, int) -> int, path: seq<byte>): (p: Parent)
    requires Sound(s, supers) && Igets(iget, s) && BlocksOk(blocks) && Caller(s, t)
    ensures p.NoDir? <==> GetDir(s, supers, blocks, t, suser, iget, path) == NONE
    ensures !p.NoDir? ==> p.dir == GetDir(s, supers, blocks, t, suser, iget, path) && s[p.dir].dev != 0
    ensures p.Base? ==> BaseStart(path) < |path| && p.name == path[BaseStart(path)..]
    ensures p.Base? ==> forall j :: 0 <= j < |p.name| ==> p.name[j] != SLASH
  {
    var dir := GetDir(s, supers, blocks, t, suser, iget, path);
    if dir == NONE then NoDir
    else if BaseStart(path) == |path| then NoBase(dir)
    else Base(dir, path[BaseStart(path)..])
  }

  /** `dir_namei` on the table `s`: the table ends holding the directory. */
  method ParentIn(s: seq<MInode>, supers: seq<Super>, blocks: map<(int, int), Block>, t: Task, suser: bool,
                  iget: (int, int) -> int, path: seq<byte>)
    returns (p: Parent, s': seq<MInode>)
    requires Sound(s, supers) && Igets(iget, s) && BlocksOk(blocks) && Caller(s, t)
    ensures p == ParentOf(s, supers, blocks, t, suser, iget, path)
    ensures s' == if p.NoDir? then s else Hold(s, p.dir)
  {
    var dir, base;
    dir, base, s' := DirNameiIn(s, supers, blocks, t, suser, iget, path);
    if dir == NONE {
      return NoDir, s';
    }
    if base == |path| {
      return NoBase(dir), s';
    }
    p := Base(dir, path[base..]);
  }

  /**
   * The checks `sys_unlink`, `sys_rmdir`, `sys_mknod` and `sys_mkdir`
   * make before `find_entry`: -ENOENT without a directory or without a
   * base name, -EPERM when the caller may not write the directory.
   */
  function Checked(s: seq<MInode>, t: Task, suser: bool, p: Parent): (err: int)
    requires !p.NoDir? ==> 0 <= p.dir < |s|
    ensures err == 0 <==> p.Base? && Permission(s[p.dir], t.euid, t.egid, MAY_WRITE, suser)
    ensures err == 0 || err == -ENOENT || err == -EPERM
  {
    if !p.Base? then -ENOENT
    else if !Permission(s[p.dir], t.euid, t.egid, MAY_WRITE, suser) then -EPERM
    else 0
  }

  /** The entry `find_entry` found lies in a block that was read and holds the inode number it gave. */
  lemma SeekAt(s: seq<MInode>, supers: seq<Super>, blocks: map<(int, int), Block>, root: int, dir: int,
               name: seq<byte>)
    requires Sound(s, supers) && BlocksOk(blocks) && 0 <= dir < |s|
    ensures var st := Seek(s, supers, blocks, root, dir, name);
            (st.k == NONE <==> st.ino == NONE) &&
            (st.ino != NONE ==> 0 <= st.k && Readable(DirBlock(s[st.dir], blocks, st.k / 64)) &&
                                EntryIn(DirBlock(s[st.dir], blocks, st.k / 64).data, st.k % 64).ino == st.ino)
  {
    var (d, len) := Turn(s, supers, root, dir, name);
    if len > 0 {
      FoundAt(s[d], blocks, len, name);
    }
  }

  /** The cache key of the block holding entry `k` of directory `i`. */
  function EntryKey(i: MInode, blocks: map<(int, int), Block>, k: int): (key: (int, int))
    requires i.Valid() && BlocksOk(blocks) && 0 <= k && Readable(DirBlock(i, blocks, k / 64))
    ensures key in blocks && blocks[key].data == DirBlock(i, blocks, k / 64).data
  {
    (i.dev, DirZone(i, blocks, k / 64) as int)
  }

  /** The blocks after `de->inode = 0` on slot `j` of the cached block `key` and `bh->b_dirt = 1`. */
  function Cleared(blocks: map<(int, int), Block>, key: (int, int), j: nat): (b: map<(int, int), Block>)
    requires BlocksOk(blocks) && key in blocks && j < DIR_ENTRIES_PER_BLOCK
    ensures BlocksOk(b) && b.Keys == blocks.Keys
  {
    var data := blocks[key].data;
    blocks[key := blocks[key].(data := PutEntry(data, j, EntryIn(data, j).(ino := 0)), dirt := true)]
  }

  /**
   * Clearing slot `j` frees it and keeps its name; every other slot of
   * the block, and every other block, is as it was; no name matches the
   * slot any more.
   */
  lemma ClearedReads(blocks: map<(int, int), Block>, key: (int, int), j: nat, m: nat)
    requires BlocksOk(blocks) && key in blocks && j < DIR_ENTRIES_PER_BLOCK && m < DIR_ENTRIES_PER_BLOCK
    ensures var b := Cleared(blocks, key, j);
            b[key].dirt &&
            EntryIn(b[key].data, m) == (if m == j then DirEntry(0, EntryIn(blocks[key].data, j).name)
                                        else EntryIn(blocks[key].data, m)) &&
            (forall key' :: key' in blocks && key' != key ==> b[key'] == blocks[key']) &&
            (forall len, name :: 0 < len <= |name| ==> !MatchAt(b[key].data, j, len, name))
  {
    var data := blocks[key].data;
    var e := EntryIn(data, j).(ino := 0);
    PutEntryReads(data, j, e, m);
    forall len, name | 0 < len <= |name|
      ensures !MatchAt(PutEntry(data, j, e), j, len, name)
    {
      PutEntryReads(data, j, e, j);
    }
  }

  /** Giving back the references on slots `x` and `d`, in either order, restores the counts. */
  lemma HoldTwice(s: seq<MInode>, d: int, x: int)
    requires 0 <= d < |s| && 0 <= x < |s|
    ensures Drop(Drop(Hold(Hold(s, d), x), x), d) == s
    ensures Drop(Drop(Hold(Hold(s, d), x), d), x) == s
    ensures var h := Hold(Hold(s, d), x); h[d] == s[d].(count := h[d].count) && h[x] == s[x].(count := h[x].count)
  {
    HoldDrop(Hold(s, d), x);
    HoldDrop(s, d);
    var h := Hold(Hold(s, d), x);
    assert Drop(Drop(h, d), x) == s by {
      assert forall j :: 0 <= j < |s| ==> Drop(Drop(h, d), x)[j] == s[j];
    }
  }

  /** Changing slot `x` while it and slot `d` are held, then giving both back, changes slot `x` alone. */
  lemma HoldSet(s: seq<MInode>, s2: seq<MInode>, d: int, x: int, r: MInode)
    requires 0 <= d < |s| && 0 <= x < |s| && s2 == Hold(Hold(s, d), x) && r.count == s2[x].count
    ensures s2[x := r][x].count > 0 && Drop(s2[x := r], x)[d].count > 0
    ensures Drop(Drop(s2[x := r], x), d) == s[x := r.(count := s[x].count)]
  {
    var u := Drop(Drop(s2[x := r], x), d);
    assert forall j :: 0 <= j < |s| ==> u[j] == s[x := r.(count := s[x].count)][j];
  }

  /** Storing `r` at `x` and giving back the reference on `d` leaves `r` at `x` with one reference more than before. */
  lemma HoldSetKept(s: seq<MInode>, s2: seq<MInode>, d: int, x: int, r: MInode)
    requires 0 <= d < |s| && 0 <= x < |s| && s2 == Hold(Hold(s, d), x) && r.count == s2[x].count
    ensures s2[x := r][d].count > 0
    ensures Drop(s2[x := r], d) == s[x := r.(count := s[x].count + 1)]
  {
    var u := Drop(s2[x := r], d);
    assert forall j :: 0 <= j < |s| ==> u[j] == s[x := r.(count := s[x].count + 1)][j];
  }

  /** The outcome of a system call: what it returns and the inode table and blocks it leaves. */
  datatype Outcome = Outcome(err: int, s: seq<MInode>, blocks: map<(int, int), Block>)

  /** Where `find_entry` leaves `sys_unlink` and `sys_rmdir`: an error, or the directory searched, the entry found and its inode number. */
  datatype Spot = Miss(err: int) | Spot(dir: int, k: int, ino: int, key: (int, int))

  /** What the calls need of `sp` after `find_entry`: a directory slot on a device and a cached block. */
  ghost predicate Placed(s: seq<MInode>, blocks: map<(int, int), Block>, iget: (int, int) -> int, sp: Spot)
  {
    (forall k :: 0 <= k < |s| ==> s[k].Valid() && SizeOk(s[k])) && BlocksOk(blocks) && Igets(iget, s) &&
    (sp.Miss? ==> sp.err == -ENOENT || sp.err == -EPERM) &&
    (sp.Spot? ==> 0 <= sp.dir < |s| && s[sp.dir].dev != 0 && 0 <= sp.k && sp.ino > 0 && sp.key in blocks)
  }

  /** `sp` is a place `find_entry` can leave a call on the table `s`: the entry it found holds `sp.ino`. */
  ghost predicate Spotted(s: seq<MInode>, blocks: map<(int, int), Block>, iget: (int, int) -> int, sp: Spot)
  {
    Placed(s, blocks, iget, sp) &&
    (sp.Spot? ==> Readable(DirBlock(s[sp.dir], blocks, sp.k / 64)) && sp.key == EntryKey(s[sp.dir], blocks, sp.k) &&
                  EntryIn(blocks[sp.key].data, sp.k % 64).ino == sp.ino)
  }

  /**
   * The common start of `sys_unlink` and `sys_rmdir`: the checks of
   * `Checked`, then `find_entry` for the base name, -ENOENT when it finds
   * no entry.
   */
  function Locate(s: seq<MInode>, supers: seq<Super>, blocks: map<(int, int), Block>, t: Task, suser: bool,
                  iget: (int, int) -> int, path: seq<byte>): (sp: Spot)
    requires Sound(s, supers) && Igets(iget, s) && BlocksOk(blocks) && Caller(s, t)
    ensures Placed(s, blocks, iget, sp)
  {
    var p := ParentOf(s, supers, blocks, t, suser, iget, path);
    var err := Checked(s, t, suser, p);
    if err != 0 then Miss(err)
    else
      var st := Seek(s, supers, blocks, t.root, p.dir, p.name);
      SeekAt(s, supers, blocks, t.root, p.dir, p.name);
      if st.ino == NONE then Miss(-ENOENT) else Spot(st.dir, st.k, st.ino, EntryKey(s[st.dir], blocks, st.k))
  }

  /** The entry `Locate` finds is in a block of the directory and holds the inode number it reports. */
  lemma LocateSpotted(s: seq<MInode>, supers: seq<Super>, blocks: map<(int, int), Block>, t: Task, suser: bool,
                      iget: (int, int) -> int, path: seq<byte>)
    requires Sound(s, supers) && Igets(iget, s) && BlocksOk(blocks) && Caller(s, t)
    ensures Spotted(s, blocks, iget, Locate(s, supers, blocks, t, suser, iget, path))
  {
    var p := ParentOf(s, supers, blocks, t, suser, iget, path);
    if Checked(s, t, suser, p) == 0 {
      SeekAt(s, supers, blocks, t.root, p.dir, p.name);
    }
  }

  /** The start of `sys_unlink` and `sys_rmdir` on the table `s`: on an entry found, the table holds the directory searched. */
  method LocateIn(s: seq<MInode>, supers: seq<Super>, blocks: map<(int, int), Block>, t: Task, suser: bool,
                  iget: (int, int) -> int, path: seq<byte>)
    returns (sp: Spot, s': seq<MInode>)
    requires Sound(s, supers) && Igets(iget, s) && BlocksOk(blocks) && Caller(s, t)
    ensures sp == Locate(s, supers, blocks, t, suser, iget, path)
    ensures s' == if sp.Miss? then s else Hold(s, sp.dir)
  {
    var p, s1 := ParentIn(s, supers, blocks, t, suser, iget, path);
    if p.NoDir? {
      return Miss(-ENOENT), s1;
    }
    HoldDrop(s, p.dir);
    if p.NoBase? {
      return Miss(-ENOENT), Drop(s1, p.dir);
    }
    if !Permission(s1[p.dir], t.euid, t.egid, MAY_WRITE, suser) {
      return Miss(-EPERM), Drop(s1, p.dir);
    }
    var d, k, ino, s2 := FindIn(s1, s, supers, blocks, t.root, p.dir, p.name);
    SeekAt(s, supers, blocks, t.root, p.dir, p.name);
    if ino == NONE {
      HoldDrop(s, d);
      return Miss(-ENOENT), Drop(s2, d);
    }
    Recount(s[d], s2[d].count, blocks, k);
    return Spot(d, k, ino, EntryKey(s2[d], blocks, k)), s2;
  }

  // ---------------------------------------------------------------------
  // sys_unlink()
  // ---------------------------------------------------------------------

  /** The slot `iget` gives `sys_unlink` and `sys_rmdir` for the entry `find_entry` found, or NONE when none was found. */
  function EntrySlot(s: seq<MInode>, supers: seq<Super>, blocks: map<(int, int), Block>, t: Task, suser: bool,
                     iget: (int, int) -> int, path: seq<byte>): (x: int)
    requires Sound(s, supers) && Igets(iget, s) && BlocksOk(blocks) && Caller(s, t)
    ensures x == NONE || 0 <= x < |s|
  {
    var sp := Locate(s, supers, blocks, t, suser, iget, path);
    if sp.Miss? then NONE else iget(s[sp.dir].dev, sp.ino)
  }

  /** The inode after `sys_unlink` drops one of its links, a count of 0 first raised to 1. */
  function Unlinked(i: MInode, now: u32): (r: MInode)
    ensures r.d.nlinks == (if i.d.nlinks == 0 then 0 else i.d.nlinks - 1)
    ensures r == i.(d := r.d, ctime := now, dirt := true) && r.d == i.d.(nlinks := r.d.nlinks)
  {
    var n := if i.d.nlinks == 0 then 1 else i.d.nlinks;
    i.(d := i.d.(nlinks := Dec(n)), dirt := true, ctime := now)
  }

  /**
   * `sys_unlink(path)` at time `now`: the checks of `Locate`; -ENOENT
   * when `iget` fails; -EPERM in a sticky directory for a caller who is
   * neither the superuser nor the owner of the inode or the directory,
   * and -EPERM for a directory. On success the entry is cleared and the
   * inode loses a link; the reference taken on it is still held, for
   * the `iput` that `Unlink` runs.
   */
  function UnlinkSpec(s: seq<MInode>, supers: seq<Super>, blocks: map<(int, int), Block>, t: Task, suser: bool,
                      iget: (int, int) -> int, path: seq<byte>, now: u32): (o: Outcome)
    requires Sound(s, supers) && Igets(iget, s) && BlocksOk(blocks) && Caller(s, t)
    ensures o.err != 0 ==> o.s == s && o.blocks == blocks
    ensures o.err == 0 || o.err == -ENOENT || o.err == -EPERM
    ensures |o.s| == |s| && BlocksOk(o.blocks)
  {
    UnlinkAt(s, blocks, t, suser, iget, Locate(s, supers, blocks, t, suser, iget, path), now)
  }

  /** The checks and the changes of `sys_unlink` from where `find_entry` left it. */
  function UnlinkAt(s: seq<MInode>, blocks: map<(int, int), Block>, t: Task, suser: bool,
                    iget: (int, int) -> int, sp: Spot, now: u32): (o: Outcome)
    requires Placed(s, blocks, iget, sp)
    ensures o.err != 0 ==> o.s == s && o.blocks == blocks
    ensures o.err == 0 || o.err == -ENOENT || o.err == -EPERM
    ensures |o.s| == |s| && BlocksOk(o.blocks)
  {
    if sp.Miss? then Outcome(sp.err, s, blocks)
    else
      var x := iget(s[sp.dir].dev, sp.ino);
      if x == NONE then Outcome(-ENOENT, s, blocks)
      else if Sticky(s[sp.dir]) && !suser && t.euid != s[x].d.uid && t.euid != s[sp.dir].d.uid then
        Outcome(-EPERM, s, blocks)
      else if IsDir(s[x].d.mode) then Outcome(-EPERM, s, blocks)
      else Outcome(0, s[x := Unlinked(s[x], now).(count := s[x].count + 1)], Cleared(blocks, sp.key, sp.k % 64))
  }

  /**
   * On success `sys_unlink` removes one link of the non-directory `iget`
   * gives for the entry it found, and clears that entry: the entry no
   * longer matches any name, the other slots are as they were, and every
   * reference taken but the one on the inode is given back.
   */
  lemma UnlinkEffect(s: seq<MInode>, supers: seq<Super>, blocks: map<(int, int), Block>, t: Task, suser: bool,
                     iget: (int, int) -> int, path: seq<byte>, now: u32)
    requires Sound(s, supers) && Igets(iget, s) && BlocksOk(blocks) && Caller(s, t)
    ensures var o, sp := UnlinkSpec(s, supers, blocks, t, suser, iget, path, now), Locate(s, supers, blocks, t, suser, iget, path);
            o.err == 0 ==>
              sp.Spot? &&
              var x, key := iget(s[sp.dir].dev, sp.ino), sp.key;
              x == EntrySlot(s, supers, blocks, t, suser, iget, path) &&
              0 <= x < |s| && !IsDir(s[x].d.mode) &&
              o.s[x].d.nlinks == (if s[x].d.nlinks == 0 then 0 else s[x].d.nlinks - 1) &&
              o.s[x].count == s[x].count + 1 && o.s[x].ctime == now && o.s[x].dirt &&
              (forall j :: 0 <= j < |s| && j != x ==> o.s[j] == s[j]) &&
              o.blocks.Keys == blocks.Keys && EntryIn(o.blocks[key].data, sp.k % 64).ino == 0 &&
              (forall len, name :: 0 < len <= |name| ==> !MatchAt(o.blocks[key].data, sp.k % 64, len, name))
  {
    var o := UnlinkSpec(s, supers, blocks, t, suser, iget, path, now);
    var sp := Locate(s, supers, blocks, t, suser, iget, path);
    if o.err == 0 {
      ClearedReads(blocks, sp.key, sp.k % 64, sp.k % 64);
    }
  }

  /** The records of the table are sound, and only slots on a device are dirty. */
  ghost predicate Clean(s: seq<MInode>)
  {
    forall k :: 0 <= k < |s| ==> s[k].Valid() && (s[k].dirt ==> s[k].dev != 0)
  }

  /** `sys_unlink` keeps the records sound. */
  lemma UnlinkClean(s: seq<MInode>, supers: seq<Super>, blocks: map<(int, int), Block>, t: Task, suser: bool,
                   iget: (int, int) -> int, path: seq<byte>, now: u32)
    requires Sound(s, supers) && Igets(iget, s) && BlocksOk(blocks) && Caller(s, t) && Clean(s)
    ensures Clean(UnlinkSpec(s, supers, blocks, t, suser, iget, path, now).s)
  {
    UnlinkCleanAt(s, blocks, t, suser, iget, Locate(s, supers, blocks, t, suser, iget, path), now);
  }

  lemma UnlinkCleanAt(s: seq<MInode>, blocks: map<(int, int), Block>, t: Task, suser: bool,
                   iget: (int, int) -> int, sp: Spot, now: u32)
    requires Placed(s, blocks, iget, sp) && Clean(s)
    ensures Clean(UnlinkAt(s, blocks, t, suser, iget, sp, now).s)
  {
  }

  /** What the directory calls read of a record does not depend on its reference count. */
  lemma Recount(i: MInode, c: nat, blocks: map<(int, int), Block>, k: int)
    requires i.Valid() && BlocksOk(blocks)
    ensures 0 <= k ==> DirBlock(i.(count := c), blocks, k / 64) == DirBlock(i, blocks, k / 64)
    ensures 0 <= k && Readable(DirBlock(i, blocks, k / 64)) ==> EntryKey(i.(count := c), blocks, k) == EntryKey(i, blocks, k)
    ensures forall now :: Unlinked(i.(count := c), now) == Unlinked(i, now).(count := c)
  {
  }

  /** `sys_unlink` (fs/namei.c:873-910) from where `find_entry` left it, on the table `s1` holding the directory. */
  method UnlinkFrom(s1: seq<MInode>, ghost s: seq<MInode>, blocks: map<(int, int), Block>, t: Task, suser: bool,
                    iget: (int, int) -> int, sp: Spot, now: u32)
    returns (o: Outcome)
    requires Placed(s, blocks, iget, sp) && sp.Spot? && s1 == Hold(s, sp.dir)
    ensures o == UnlinkAt(s, blocks, t, suser, iget, sp, now)
  {
    var d := sp.dir;
    HoldDrop(s, d);
    var x := iget(s1[d].dev, sp.ino);
    if x == NONE {
      return Outcome(-ENOENT, Drop(s1, d), blocks);
    }
    var s2 := Hold(s1, x);
    HoldTwice(s, d, x);
    if Sticky(s2[d]) && !suser && t.euid != s2[x].d.uid && t.euid != s2[d].d.uid {
      return Outcome(-EPERM, Drop(Drop(s2, d), x), blocks);
    }
    if IsDir(s2[x].d.mode) {
      return Outcome(-EPERM, Drop(Drop(s2, x), d), blocks);
    }
    assert UnlinkAt(s, blocks, t, suser, iget, sp, now) ==
           Outcome(0, s[x := Unlinked(s[x], now).(count := s[x].count + 1)], Cleared(blocks, sp.key, sp.k % 64));
    o := UnlinkDone(s2, s, blocks, d, x, sp.key, sp.k % 64, now);
  }

  /** The end of `sys_unlink` up to the inode's `iput`: the entry cleared, the link dropped and the directory given back. */
  method UnlinkDone(s2: seq<MInode>, ghost s: seq<MInode>, blocks: map<(int, int), Block>, d: int, x: int,
                    key: (int, int), j: nat, now: u32)
    returns (o: Outcome)
    requires 0 <= d < |s| && 0 <= x < |s| && s2 == Hold(Hold(s, d), x)
    requires s[x].Valid() && BlocksOk(blocks) && key in blocks && j < DIR_ENTRIES_PER_BLOCK
    ensures o == Outcome(0, s[x := Unlinked(s[x], now).(count := s[x].count + 1)], Cleared(blocks, key, j))
  {
    HoldTwice(s, d, x);
    Recount(s[x], s2[x].count, blocks, 0);
    var i := Unlinked(s2[x], now);
    HoldSetKept(s, s2, d, x, i);
    o := Outcome(0, Drop(s2[x := i], d), Cleared(blocks, key, j));
  }

  /** `sys_unlink` (fs/namei.c:855-911) on the table `s` and the blocks `blocks`. */
  method UnlinkIn(s: seq<MInode>, supers: seq<Super>, blocks: map<(int, int), Block>, t: Task, suser: bool,
                  iget: (int, int) -> int, path: seq<byte>, now: u32)
    returns (o: Outcome)
    requires Sound(s, supers) && Igets(iget, s) && BlocksOk(blocks) && Caller(s, t)
    ensures o == UnlinkSpec(s, supers, blocks, t, suser, iget, path, now)
  {
    var sp, s1 := LocateIn(s, supers, blocks, t, suser, iget, path);
    if sp.Miss? {
      return Outcome(sp.err, s1, blocks);
    }
    o := UnlinkFrom(s1, s, blocks, t, suser, iget, sp, now);
  }

  /**
   * The `iput` of the inode `sys_unlink` unlinked does not halt: when it
   * is the last reference, `write_inode` reaches the record of an inode
   * that keeps links, and `free_inode` and every `free_block` of
   * `truncate` find what they check for in one that keeps none.
   */
  ghost predicate UnlinkPuts(s: seq<MInode>, supers: seq<Super>, blocks: map<(int, int), Block>, t: Task, suser: bool,
                             iget: (int, int) -> int, path: seq<byte>, now: u32)
    requires Sound(s, supers) && Igets(iget, s) && BlocksOk(blocks) && Caller(s, t)
  {
    var o, x := UnlinkSpec(s, supers, blocks, t, suser, iget, path, now), EntrySlot(s, supers, blocks, t, suser, iget, path);
    o.err == 0 ==>
      0 <= x < |s| &&
      var i := o.s[x];
      (i.count == 1 && i.d.nlinks != 0 ==> ReachableIn(supers, o.blocks, i)) &&
      (i.count == 1 && i.d.nlinks == 0 ==>
         Iref.CanFreeInode(supers, i) &&
         (Truncate.Truncatable(i.d.mode) ==>
            Truncate.Runs(Truncate.Store(supers, o.blocks), i.dev, Truncate.TruncTrace(i.d.zone, o.blocks, i.dev))))
  }

  /**
   * `sys_unlink` on the file-system tables: the inode table and the
   * blocks become those of `UnlinkSpec`; on success the inode's `iput`
   * follows: a shared inode loses the reference, the last reference
   * writes back an inode that keeps links and releases one that keeps
   * none, leaving the store `Iref.Released` gives.
   */
  method Unlink(fs: FileSystem, t: Task, suser: bool, iget: (int, int) -> int, path: seq<byte>, now: u32)
    returns (r: int)
    requires fs.Valid() && Sound(fs.inodes, fs.supers) && Igets(iget, fs.inodes) && Caller(fs.inodes, t)
    requires UnlinkPuts(fs.inodes, fs.supers, fs.blocks, t, suser, iget, path, now)
    modifies fs
    ensures fs.Valid()
    ensures var o := UnlinkSpec(old(fs.inodes), old(fs.supers), old(fs.blocks), t, suser, iget, path, now);
            r == o.err &&
            (r != 0 ==> fs.inodes == o.s && fs.blocks == o.blocks && fs.supers == old(fs.supers))
    ensures var o, x := UnlinkSpec(old(fs.inodes), old(fs.supers), old(fs.blocks), t, suser, iget, path, now),
                        EntrySlot(old(fs.inodes), old(fs.supers), old(fs.blocks), t, suser, iget, path);
            r == 0 ==>
              0 <= x < NR_INODE &&
              (forall k :: 0 <= k < NR_INODE && k != x ==> fs.inodes[k] == o.s[k]) &&
              Iref.PutLastDid(o.s[x], Truncate.Store(old(fs.supers), o.blocks), fs.inodes[x], Truncate.StoreOf(fs))
    ensures fs.files == old(fs.files)
    ensures fs.lastInode == old(fs.lastInode) && fs.rootDev == old(fs.rootDev)
  {
    ghost var sup0 := fs.supers;
    var o := UnlinkIn(fs.inodes, fs.supers, fs.blocks, t, suser, iget, path, now);
    UnlinkClean(fs.inodes, fs.supers, fs.blocks, t, suser, iget, path, now);
    if o.err == 0 {
      UnlinkEffect(fs.inodes, fs.supers, fs.blocks, t, suser, iget, path, now);
    }
    var x := EntrySlot(fs.inodes, fs.supers, fs.blocks, t, suser, iget, path);
    fs.inodes, fs.blocks := o.s, o.blocks;
    r := o.err;
    if r == 0 {
      assert Truncate.StoreOf(fs) == Truncate.Store(sup0, o.blocks);
      Iref.PutLast(fs, x, now);
    }
  }

  // ---------------------------------------------------------------------
  // sys_rmdir()
  // ---------------------------------------------------------------------

  /** The directory removed by `sys_rmdir`: no links left, dirty. */
  function Emptied(i: MInode): (r: MInode)
    ensures r.d.nlinks == 0 && r.dirt
    ensures r == i.(d := i.d.(nlinks := 0), dirt := true)
  {
    i.(d := i.d.(nlinks := 0), dirt := true)
  }

  /** The parent after `sys_rmdir`: one link less (for the `..` removed), changed and modified at `now`, dirty. */
  function Removed(i: MInode, now: u32): (r: MInode)
    ensures i.d.nlinks > 0 ==> r.d.nlinks == i.d.nlinks - 1
    ensures r == i.(d := r.d, ctime := now, dirt := true) && r.d == i.d.(nlinks := r.d.nlinks, mtime := now)
  {
    i.(d := i.d.(nlinks := Dec(i.d.nlinks), mtime := now), ctime := now, dirt := true)
  }

  /** Neither `Emptied` nor `Removed` depends on the reference count, and neither does `is_empty_dir`. */
  lemma RecountDir(i: MInode, c: nat, blocks: map<(int, int), Block>)
    requires i.Valid() && BlocksOk(blocks)
    ensures Emptied(i.(count := c)) == Emptied(i).(count := c)
    ensures forall now :: Removed(i.(count := c), now) == Removed(i, now).(count := c)
    ensures IsEmpty(i.(count := c), blocks) == IsEmpty(i, blocks)
  {
    var j := i.(count := c);
    IsEmptyIff(i, blocks);
    IsEmptyIff(j, blocks);
    assert forall m :: 2 <= m ==> Vacant(DirView(j, blocks), m) == Vacant(DirView(i, blocks), m);
  }

  /**
   * `sys_rmdir(path)` at time `now`: -EPERM for a caller who is not the
   * superuser, then the checks of `Locate`; -EPERM when `iget` fails, in
   * a sticky directory for a caller who neither is the superuser nor owns
   * the inode, for an inode on another device or held by anyone else, and
   * for the directory itself; -ENOTDIR for a non-directory; -ENOTEMPTY
   * when `is_empty_dir` says no. On success the entry is cleared, the
   * directory loses its links and the parent one link; the reference
   * taken on the directory removed is still held, for the last `iput`
   * that `Rmdir` runs.
   */
  function RmdirSpec(s: seq<MInode>, supers: seq<Super>, blocks: map<(int, int), Block>, t: Task, suser: bool,
                     iget: (int, int) -> int, path: seq<byte>, now: u32): (o: Outcome)
    requires Sound(s, supers) && Igets(iget, s) && BlocksOk(blocks) && Caller(s, t)
    ensures o.err != 0 ==> o.s == s && o.blocks == blocks
    ensures o.err in {0, -ENOENT, -EPERM, -ENOTDIR, -ENOTEMPTY}
    ensures |o.s| == |s| && BlocksOk(o.blocks)
  {
    if !suser then Outcome(-EPERM, s, blocks)
    else RmdirAt(s, blocks, t, suser, iget, Locate(s, supers, blocks, t, suser, iget, path), now)
  }

  /** The checks and the changes of `sys_rmdir` from where `find_entry` left it. */
  function RmdirAt(s: seq<MInode>, blocks: map<(int, int), Block>, t: Task, suser: bool,
                   iget: (int, int) -> int, sp: Spot, now: u32): (o: Outcome)
    requires Placed(s, blocks, iget, sp)
    ensures o.err != 0 ==> o.s == s && o.blocks == blocks
    ensures o.err in {0, -ENOENT, -EPERM, -ENOTDIR, -ENOTEMPTY}
    ensures |o.s| == |s| && BlocksOk(o.blocks)
  {
    if sp.Miss? then Outcome(sp.err, s, blocks)
    else
      var d, x := sp.dir, iget(s[sp.dir].dev, sp.ino);
      if x == NONE then Outcome(-EPERM, s, blocks)
      else if Sticky(s[d]) && !suser && s[x].d.uid != t.euid then Outcome(-EPERM, s, blocks)
      else if s[x].dev != s[d].dev || Hold(Hold(s, d), x)[x].count > 1 then Outcome(-EPERM, s, blocks)
      else if x == d then Outcome(-EPERM, s, blocks)
      else if !IsDir(s[x].d.mode) then Outcome(-ENOTDIR, s, blocks)
      else if !IsEmpty(s[x], blocks) then Outcome(-ENOTEMPTY, s, blocks)
      else Outcome(0, s[x := Emptied(s[x]).(count := s[x].count + 1)][d := Removed(s[d], now)], Cleared(blocks, sp.key, sp.k % 64))
  }

  /**
   * On success the caller is the superuser and `sys_rmdir` removes an
   * empty directory nobody else held, other than the one searched and on
   * its device: the directory keeps no link and only the reference this
   * call took, the parent loses one link and is changed at `now`, the
   * entry no longer matches any name, and nothing else changes before
   * the last `iput`.
   */
  lemma RmdirEffect(s: seq<MInode>, supers: seq<Super>, blocks: map<(int, int), Block>, t: Task, suser: bool,
                    iget: (int, int) -> int, path: seq<byte>, now: u32)
    requires Sound(s, supers) && Igets(iget, s) && BlocksOk(blocks) && Caller(s, t)
    ensures var o, sp := RmdirSpec(s, supers, blocks, t, suser, iget, path, now), Locate(s, supers, blocks, t, suser, iget, path);
            o.err == 0 ==>
              suser && sp.Spot? &&
              var d, x := sp.dir, iget(s[sp.dir].dev, sp.ino);
              x == EntrySlot(s, supers, blocks, t, suser, iget, path) &&
              0 <= x < |s| && x != d && s[x].count == 0 && s[x].dev == s[d].dev &&
              IsDir(s[x].d.mode) && IsEmpty(s[x], blocks) &&
              o.s[x].d.nlinks == 0 && o.s[x].dirt && o.s[x].count == 1 && o.s[x].d.zone == s[x].d.zone &&
              (s[d].d.nlinks > 0 ==> o.s[d].d.nlinks == s[d].d.nlinks - 1) &&
              o.s[d].ctime == now && o.s[d].d.mtime == now && o.s[d].count == s[d].count &&
              (forall j :: 0 <= j < |s| && j != x && j != d ==> o.s[j] == s[j]) &&
              o.blocks.Keys == blocks.Keys && EntryIn(o.blocks[sp.key].data, sp.k % 64).ino == 0 &&
              (forall len, name :: 0 < len <= |name| ==> !MatchAt(o.blocks[sp.key].data, sp.k % 64, len, name))
  {
    if suser {
      RmdirAtEffect(s, blocks, t, suser, iget, Locate(s, supers, blocks, t, suser, iget, path), now);
    }
  }

  /** `RmdirEffect` from where `find_entry` left the call. */
  lemma RmdirAtEffect(s: seq<MInode>, blocks: map<(int, int), Block>, t: Task, suser: bool,
                      iget: (int, int) -> int, sp: Spot, now: u32)
    requires Placed(s, blocks, iget, sp)
    ensures var o := RmdirAt(s, blocks, t, suser, iget, sp, now);
            o.err == 0 ==>
              sp.Spot? &&
              var d, x := sp.dir, iget(s[sp.dir].dev, sp.ino);
              0 <= x < |s| && x != d && s[x].count == 0 && s[x].dev == s[d].dev &&
              IsDir(s[x].d.mode) && IsEmpty(s[x], blocks) &&
              o.s[x].d.nlinks == 0 && o.s[x].dirt && o.s[x].count == 1 && o.s[x].d.zone == s[x].d.zone &&
              (s[d].d.nlinks > 0 ==> o.s[d].d.nlinks == s[d].d.nlinks - 1) &&
              o.s[d].ctime == now && o.s[d].d.mtime == now && o.s[d].count == s[d].count &&
              (forall j :: 0 <= j < |s| && j != x && j != d ==> o.s[j] == s[j]) &&
              o.blocks.Keys == blocks.Keys && EntryIn(o.blocks[sp.key].data, sp.k % 64).ino == 0 &&
              (forall len, name :: 0 < len <= |name| ==> !MatchAt(o.blocks[sp.key].data, sp.k % 64, len, name))
  {
    var o := RmdirAt(s, blocks, t, suser, iget, sp, now);
    if o.err == 0 {
      ClearedReads(blocks, sp.key, sp.k % 64, sp.k % 64);
    }
  }

  /** `sys_rmdir` keeps the records sound. */
  lemma RmdirClean(s: seq<MInode>, supers: seq<Super>, blocks: map<(int, int), Block>, t: Task, suser: bool,
                   iget: (int, int) -> int, path: seq<byte>, now: u32)
    requires Sound(s, supers) && Igets(iget, s) && BlocksOk(blocks) && Caller(s, t) && Clean(s)
    ensures Clean(RmdirSpec(s, supers, blocks, t, suser, iget, path, now).s)
  {
    RmdirCleanAt(s, blocks, t, suser, iget, Locate(s, supers, blocks, t, suser, iget, path), now);
  }

  lemma RmdirCleanAt(s: seq<MInode>, blocks: map<(int, int), Block>, t: Task, suser: bool,
                   iget: (int, int) -> int, sp: Spot, now: u32)
    requires Placed(s, blocks, iget, sp) && Clean(s)
    ensures Clean(RmdirAt(s, blocks, t, suser, iget, sp, now).s)
  {
  }

  /** `sys_rmdir` (fs/namei.c:792-851) from where `find_entry` left it, on the table `s1` holding the directory. */
  method RmdirFrom(s1: seq<MInode>, ghost s: seq<MInode>, blocks: map<(int, int), Block>, t: Task, suser: bool,
                   iget: (int, int) -> int, sp: Spot, now: u32)
    returns (o: Outcome)
    requires Placed(s, blocks, iget, sp) && sp.Spot? && s1 == Hold(s, sp.dir)
    ensures o == RmdirAt(s, blocks, t, suser, iget, sp, now)
  {
    var d := sp.dir;
    HoldDrop(s, d);
    var x := iget(s1[d].dev, sp.ino);
    if x == NONE {
      return Outcome(-EPERM, Drop(s1, d), blocks);
    }
    var s2 := Hold(s1, x);
    HoldTwice(s, d, x);
    if Sticky(s2[d]) && !suser && s2[x].d.uid != t.euid {
      return Outcome(-EPERM, Drop(Drop(s2, x), d), blocks);
    }
    if s2[x].dev != s2[d].dev || s2[x].count > 1 {
      return Outcome(-EPERM, Drop(Drop(s2, x), d), blocks);
    }
    // `inode == dir` cannot hold here: that slot would be held twice and fail the count test.
    assert x != d;
    if !IsDir(s2[x].d.mode) {
      return Outcome(-ENOTDIR, Drop(Drop(s2, x), d), blocks);
    }
    RecountDir(s[x], s2[x].count, blocks);
    var empty := IsEmptyDir(s2[x], blocks);
    if !empty {
      return Outcome(-ENOTEMPTY, Drop(Drop(s2, x), d), blocks);
    }
    assert RmdirAt(s, blocks, t, suser, iget, sp, now) ==
           Outcome(0, s[x := Emptied(s[x]).(count := s[x].count + 1)][d := Removed(s[d], now)], Cleared(blocks, sp.key, sp.k % 64));
    o := RmdirDone(s2, s, blocks, d, x, sp.key, sp.k % 64, now);
  }

  /** The end of `sys_rmdir` up to its last `iput`: the entry cleared, both inodes changed and the parent given back. */
  method RmdirDone(s2: seq<MInode>, ghost s: seq<MInode>, blocks: map<(int, int), Block>, d: int, x: int,
                   key: (int, int), j: nat, now: u32)
    returns (o: Outcome)
    requires 0 <= d < |s| && 0 <= x < |s| && x != d && s2 == Hold(Hold(s, d), x)
    requires s[x].Valid() && s[d].Valid() && BlocksOk(blocks) && key in blocks && j < DIR_ENTRIES_PER_BLOCK
    ensures o == Outcome(0, s[x := Emptied(s[x]).(count := s[x].count + 1)][d := Removed(s[d], now)], Cleared(blocks, key, j))
  {
    RecountDir(s[x], s2[x].count, blocks);
    RecountDir(s[d], s2[d].count, blocks);
    var s3 := s2[x := Emptied(s2[x])];
    var s4 := Drop(s3[d := Removed(s3[d], now)], d);
    assert forall m :: 0 <= m < |s| ==> s4[m] == s[x := Emptied(s[x]).(count := s[x].count + 1)][d := Removed(s[d], now)][m];
    o := Outcome(0, s4, Cleared(blocks, key, j));
  }

  /** `sys_rmdir` (fs/namei.c:764-852) on the table `s` and the blocks `blocks`. */
  method RmdirIn(s: seq<MInode>, supers: seq<Super>, blocks: map<(int, int), Block>, t: Task, suser: bool,
                 iget: (int, int) -> int, path: seq<byte>, now: u32)
    returns (o: Outcome)
    requires Sound(s, supers) && Igets(iget, s) && BlocksOk(blocks) && Caller(s, t)
    ensures o == RmdirSpec(s, supers, blocks, t, suser, iget, path, now)
  {
    if !suser {
      return Outcome(-EPERM, s, blocks);
    }
    var sp, s1 := LocateIn(s, supers, blocks, t, suser, iget, path);
    if sp.Miss? {
      return Outcome(sp.err, s1, blocks);
    }
    o := RmdirFrom(s1, s, blocks, t, suser, iget, sp, now);
  }

  /**
   * The last `iput` of the directory `sys_rmdir` removes does not halt:
   * `free_inode` finds its bit in the inode bitmap, and every
   * `free_block` of its `truncate` finds a data zone.
   */
  ghost predicate RmdirReleases(s: seq<MInode>, supers: seq<Super>, blocks: map<(int, int), Block>, t: Task, suser: bool,
                                iget: (int, int) -> int, path: seq<byte>, now: u32)
    requires Sound(s, supers) && Igets(iget, s) && BlocksOk(blocks) && Caller(s, t)
  {
    var o, x := RmdirSpec(s, supers, blocks, t, suser, iget, path, now), EntrySlot(s, supers, blocks, t, suser, iget, path);
    o.err == 0 ==>
      0 <= x < |s| && Iref.CanFreeInode(supers, o.s[x]) &&
      Truncate.Runs(Truncate.Store(supers, o.blocks), o.s[x].dev, Truncate.TruncTrace(o.s[x].d.zone, o.blocks, o.s[x].dev))
  }

  /**
   * `sys_rmdir` on the file-system tables: the inode table and the
   * blocks become those of `RmdirSpec`; on success the last `iput`
   * truncates the directory removed and frees its inode, so the store
   * is the one `Iref.Released` gives and the slot is cleared.
   */
  method Rmdir(fs: FileSystem, t: Task, suser: bool, iget: (int, int) -> int, path: seq<byte>, now: u32)
    returns (r: int)
    requires fs.Valid() && Sound(fs.inodes, fs.supers) && Igets(iget, fs.inodes) && Caller(fs.inodes, t)
    requires RmdirReleases(fs.inodes, fs.supers, fs.blocks, t, suser, iget, path, now)
    modifies fs
    ensures var o := RmdirSpec(old(fs.inodes), old(fs.supers), old(fs.blocks), t, suser, iget, path, now);
            r == o.err &&
            (r != 0 ==> fs.inodes == o.s && fs.blocks == o.blocks && fs.supers == old(fs.supers)) &&
            (r == 0 ==> var x := EntrySlot(old(fs.inodes), old(fs.supers), old(fs.blocks), t, suser, iget, path);
                        0 <= x < NR_INODE && fs.inodes == o.s[x := ZERO_INODE] &&
                        Truncate.StoreOf(fs) == Iref.Released(Truncate.Store(old(fs.supers), o.blocks), o.s[x]))
    ensures fs.files == old(fs.files) && fs.rootDev == old(fs.rootDev)
    ensures fs.lastInode == old(fs.lastInode)
    ensures fs.Valid()
  {
    ghost var s0, sup0, b0 := fs.inodes, fs.supers, fs.blocks;
    var o := RmdirIn(fs.inodes, fs.supers, fs.blocks, t, suser, iget, path, now);
    RmdirClean(fs.inodes, fs.supers, fs.blocks, t, suser, iget, path, now);
    if o.err == 0 {
      RmdirEffect(fs.inodes, fs.supers, fs.blocks, t, suser, iget, path, now);
    }
    var x := EntrySlot(fs.inodes, fs.supers, fs.blocks, t, suser, iget, path);
    fs.inodes, fs.blocks := o.s, o.blocks;
    r := o.err;
    if r == 0 {
      assert Truncate.StoreOf(fs) == Truncate.Store(sup0, o.blocks);
      Iref.Release(fs, x, now);
    }
  }

  // ---------------------------------------------------------------------
  // sys_link()
  // ---------------------------------------------------------------------

  /** The table after `namei` found slot `x` for `path`: the slot held and, for a last component, its atime set. */
  function Named(s: seq<MInode>, x: int, path: seq<byte>, now: u32): (s': seq<MInode>)
    requires 0 <= x < |s|
    ensures Like(s, s') && s'[x].count == s[x].count + 1
    ensures forall j :: 0 <= j < |s| && j != x ==> s'[j] == s[j]
  {
    if BaseStart(path) < |path| then Touched(Hold(s, x), x, now) else Hold(s, x)
  }

  /** `s'` differs from `s` at most in more references, access times and dirty flags. */
  ghost predicate Like(s: seq<MInode>, s': seq<MInode>)
  {
    |s'| == |s| &&
    forall k :: 0 <= k < |s| ==>
      s'[k] == s[k].(count := s'[k].count, atime := s'[k].atime, dirt := s'[k].dirt) && s'[k].count >= s[k].count
  }

  /** What the walk needs of the table holds on a table `Like` it. */
  lemma LikeSound(s: seq<MInode>, s': seq<MInode>, supers: seq<Super>, iget: (int, int) -> int, t: Task)
    requires Like(s, s') && Sound(s, supers) && Igets(iget, s) && Caller(s, t)
    ensures Sound(s', supers) && Igets(iget, s') && Caller(s', t)
  {
    forall k | 0 <= k < |s|
      ensures s'[k].Valid() && SizeOk(s'[k]) && s'[k].dev == s[k].dev && s'[k].num == s[k].num
    {
    }
  }

  /** The inode after `sys_link` gives it one more link: `i_nlinks++`, changed at `now`, dirty. */
  function Linked(i: MInode, now: u32): (r: MInode)
    ensures i.d.nlinks < 0xFF ==> r.d.nlinks == i.d.nlinks + 1
    ensures r == i.(d := r.d, ctime := now, dirt := true) && r.d == i.d.(nlinks := r.d.nlinks)
  {
    i.(d := i.d.(nlinks := Inc(i.d.nlinks)), ctime := now, dirt := true)
  }

  /**
   * `sys_link(oldpath, newpath)` at time `now`: -ENOENT when `namei`
   * finds nothing for `oldpath`, then the checks of `LinkTo`. `zoneOf`
   * gives `create_block`'s answers and `max` is `I_MAX_DIR_ENTRIES`.
   */
  function LinkSpec(s: seq<MInode>, supers: seq<Super>, blocks: map<(int, int), Block>, t: Task, suser: bool,
                    iget: (int, int) -> int, oldpath: seq<byte>, newpath: seq<byte>, now: u32,
                    zoneOf: nat -> int, max: nat): (o: Outcome)
    requires Sound(s, supers) && Igets(iget, s) && BlocksOk(blocks) && Caller(s, t) && max <= MAX_ENTRIES
    ensures o.err == -ENOENT ==> o.s == s && o.blocks == blocks
    ensures o.err in {0, -ENOENT, -EPERM, -EACCES, -EXDEV, -EEXIST, -ENOSPC}
    ensures |o.s| == |s| && BlocksOk(o.blocks)
    ensures o.err != 0 ==> o.blocks == blocks
  {
    var x := Resolve(s, supers, blocks, t, suser, iget, oldpath);
    if x == NONE then Outcome(-ENOENT, s, blocks)
    else
      var s1 := Named(s, x, oldpath, now);
      LikeSound(s, s1, supers, iget, t);
      LinkTo(s1, supers, blocks, t, suser, iget, x, newpath, now, zoneOf, max)
  }

  /**
   * `sys_link` once `namei` holds slot `x` in the table `s1`: -EPERM for
   * a directory; -EACCES when `dir_namei` finds no directory for
   * `newpath`; -EPERM without a base name; -EXDEV across devices;
   * -EACCES when the caller may not write the directory; -EEXIST when
   * the name is there; then `LinkAdd`. Every error gives back the
   * references taken.
   */
  function LinkTo(s1: seq<MInode>, supers: seq<Super>, blocks: map<(int, int), Block>, t: Task, suser: bool,
                  iget: (int, int) -> int, x: int, newpath: seq<byte>, now: u32,
                  zoneOf: nat -> int, max: nat): (o: Outcome)
    requires Sound(s1, supers) && Igets(iget, s1) && BlocksOk(blocks) && Caller(s1, t) && max <= MAX_ENTRIES
    requires 0 <= x < |s1| && s1[x].count > 0
    ensures o.err in {0, -EPERM, -EACCES, -EXDEV, -EEXIST, -ENOSPC}
    ensures |o.s| == |s1| && BlocksOk(o.blocks)
    ensures o.err != 0 && o.err != -ENOSPC ==> o.s == Drop(s1, x) && o.blocks == blocks
    ensures o.err == -ENOSPC ==> o.blocks == blocks
  {
    if IsDir(s1[x].d.mode) then Outcome(-EPERM, Drop(s1, x), blocks)
    else LinkUnder(s1, supers, blocks, t, suser, x, ParentOf(s1, supers, blocks, t, suser, iget, newpath), now, zoneOf, max)
  }

  /** The checks of `sys_link` on what `dir_namei` gave for the new path, then `find_entry` and `LinkAdd`. */
  function LinkUnder(s1: seq<MInode>, supers: seq<Super>, blocks: map<(int, int), Block>, t: Task, suser: bool,
                     x: int, p: Parent, now: u32, zoneOf: nat -> int, max: nat): (o: Outcome)
    requires Sound(s1, supers) && BlocksOk(blocks) && max <= MAX_ENTRIES
    requires 0 <= x < |s1| && s1[x].count > 0 && (!p.NoDir? ==> 0 <= p.dir < |s1|)
    ensures o.err in {0, -EPERM, -EACCES, -EXDEV, -EEXIST, -ENOSPC}
    ensures |o.s| == |s1| && BlocksOk(o.blocks)
    ensures o.err != 0 && o.err != -ENOSPC ==> o.s == Drop(s1, x) && o.blocks == blocks
    ensures o.err == -ENOSPC ==> o.blocks == blocks
  {
    if p.NoDir? then Outcome(-EACCES, Drop(s1, x), blocks)
    else if p.NoBase? then Outcome(-EPERM, Drop(s1, x), blocks)
    else if s1[p.dir].dev != s1[x].dev then Outcome(-EXDEV, Drop(s1, x), blocks)
    else if !Permission(s1[p.dir], t.euid, t.egid, MAY_WRITE, suser) then Outcome(-EACCES, Drop(s1, x), blocks)
    else
      var st := Seek(s1, supers, blocks, t.root, p.dir, p.name);
      if st.k != NONE then Outcome(-EEXIST, Drop(s1, x), blocks)
      else LinkAdd(s1, blocks, x, st.dir, p.name, now, zoneOf, max)
  }

  /**
   * The end of `sys_link`: `add_entry_safely` in directory `d`, held for
   * it, of the name and the number of inode `x` (cut to 16 bits, as
   * `inr_t` is); -ENOSPC when it claims no entry, the directory keeping
   * what the scan changed. On success inode `x` gains a link. Both
   * references are given back.
   */
  function LinkAdd(s1: seq<MInode>, blocks: map<(int, int), Block>, x: int, d: int, name: seq<byte>, now: u32,
                   zoneOf: nat -> int, max: nat): (o: Outcome)
    requires 0 <= x < |s1| && 0 <= d < |s1| && s1[x].count > 0 && s1[d].Valid() && BlocksOk(blocks)
    requires max <= MAX_ENTRIES
    ensures o.err == 0 || o.err == -ENOSPC
    ensures |o.s| == |s1| && BlocksOk(o.blocks) && o.blocks.Keys == blocks.Keys
    ensures o.err != 0 ==> o.blocks == blocks
  {
    var s3 := Hold(s1, d);
    var ins := Insert(s3[d], blocks, name, |name|, s3[x].num % 0x10000, now, zoneOf, max);
    var s4 := Drop(s3[d := ins.dir], d);
    if ins.k == NONE then Outcome(-ENOSPC, Drop(s4, x), blocks)
    else Outcome(0, Drop(s4[x := Linked(s4[x], now)], x), ins.blocks)
  }

  /** The end of `sys_link` (fs/namei.c:962-978) on the table `s3` holding directory `d` over `s1`. */
  method LinkAddIn(s3: seq<MInode>, ghost s1: seq<MInode>, blocks: map<(int, int), Block>, x: int, d: int,
                   name: seq<byte>, now: u32, zoneOf: nat -> int, max: nat)
    returns (o: Outcome)
    requires 0 <= x < |s1| && 0 <= d < |s1| && s1[x].count > 0 && s1[d].Valid() && BlocksOk(blocks)
    requires max <= MAX_ENTRIES && s3 == Hold(s1, d)
    ensures o == LinkAdd(s1, blocks, x, d, name, now, zoneOf, max)
  {
    var k, i, b := AddEntry(s3[d], blocks, name, |name|, s3[x].num % 0x10000, now, zoneOf, max);
    var s4 := Drop(s3[d := i], d);
    if k == NONE {
      return Outcome(-ENOSPC, Drop(s4, x), blocks);
    }
    o := Outcome(0, Drop(s4[x := Linked(s4[x], now)], x), b);
  }

  /** `sys_link` (fs/namei.c:919-978) once `namei` holds slot `x` in the table `s1`. */
  method LinkToIn(s1: seq<MInode>, supers: seq<Super>, blocks: map<(int, int), Block>, t: Task, suser: bool,
                  iget: (int, int) -> int, x: int, newpath: seq<byte>, now: u32, zoneOf: nat -> int, max: nat)
    returns (o: Outcome)
    requires Sound(s1, supers) && Igets(iget, s1) && BlocksOk(blocks) && Caller(s1, t) && max <= MAX_ENTRIES
    requires 0 <= x < |s1| && s1[x].count > 0
    ensures o == LinkTo(s1, supers, blocks, t, suser, iget, x, newpath, now, zoneOf, max)
  {
    if IsDir(s1[x].d.mode) {
      return Outcome(-EPERM, Drop(s1, x), blocks);
    }
    var p, s2 := ParentIn(s1, supers, blocks, t, suser, iget, newpath);
    o := LinkUnderIn(s2, s1, supers, blocks, t, suser, x, p, now, zoneOf, max);
  }

  /** `sys_link` (fs/namei.c:928-978) from what `dir_namei` gave, on the table `s2` holding its directory over `s1`. */
  method LinkUnderIn(s2: seq<MInode>, ghost s1: seq<MInode>, supers: seq<Super>, blocks: map<(int, int), Block>,
                     t: Task, suser: bool, x: int, p: Parent, now: u32, zoneOf: nat -> int, max: nat)
    returns (o: Outcome)
    requires Sound(s1, supers) && BlocksOk(blocks) && max <= MAX_ENTRIES
    requires 0 <= x < |s1| && s1[x].count > 0 && (!p.NoDir? ==> 0 <= p.dir < |s1|)
    requires s2 == if p.NoDir? then s1 else Hold(s1, p.dir)
    ensures o == LinkUnder(s1, supers, blocks, t, suser, x, p, now, zoneOf, max)
  {
    if p.NoDir? {
      return Outcome(-EACCES, Drop(s2, x), blocks);
    }
    HoldDrop(s1, p.dir);
    if p.NoBase? {
      return Outcome(-EPERM, Drop(Drop(s2, p.dir), x), blocks);
    }
    if s2[p.dir].dev != s2[x].dev {
      return Outcome(-EXDEV, Drop(Drop(s2, p.dir), x), blocks);
    }
    if !Permission(s2[p.dir], t.euid, t.egid, MAY_WRITE, suser) {
      return Outcome(-EACCES, Drop(Drop(s2, p.dir), x), blocks);
    }
    var d, k, ino, s3 := FindIn(s2, s1, supers, blocks, t.root, p.dir, p.name);
    if k != NONE {
      HoldDrop(s1, d);
      return Outcome(-EEXIST, Drop(Drop(s3, d), x), blocks);
    }
    o := LinkAddIn(s3, s1, blocks, x, d, p.name, now, zoneOf, max);
  }

  /** `sys_link` (fs/namei.c:913-979) on the table `s` and the blocks `blocks`. */
  method LinkIn(s: seq<MInode>, supers: seq<Super>, blocks: map<(int, int), Block>, t: Task, suser: bool,
                iget: (int, int) -> int, oldpath: seq<byte>, newpath: seq<byte>, now: u32,
                zoneOf: nat -> int, max: nat)
    returns (o: Outcome)
    requires Sound(s, supers) && Igets(iget, s) && BlocksOk(blocks) && Caller(s, t) && max <= MAX_ENTRIES
    ensures o == LinkSpec(s, supers, blocks, t, suser, iget, oldpath, newpath, now, zoneOf, max)
  {
    var x, s1 := NameiIn(s, supers, blocks, t, suser, iget, oldpath, now);
    if x == NONE {
      return Outcome(-ENOENT, s1, blocks);
    }
    assert s1 == Named(s, x, oldpath, now);
    LikeSound(s, s1, supers, iget, t);
    o := LinkToIn(s1, supers, blocks, t, suser, iget, x, newpath, now, zoneOf, max);
  }

  /** Every slot of `o` has the reference count it has in `s`, but slot `x`, which has one less. */
  ghost predicate GivenBack(s: seq<MInode>, x: int, o: seq<MInode>)
  {
    |o| == |s| && forall j :: 0 <= j < |s| ==> o[j].count == if j == x then s[j].count - 1 else s[j].count
  }

  /** The entry `add_entry_safely` writes for inode number `num` (cut to 16 bits) and `name`. */
  function EntryFor(num: int, name: seq<byte>): (e: DirEntry)
    ensures e.ino == num % 0x10000 && |e.name| == NAME_LEN && e.name[..NameLen(|name|)] == name[..NameLen(|name|)]
  {
    DirEntry(num % 0x10000, Padded(name, if |name| > NAME_LEN then NAME_LEN else |name|))
  }

  /** Entry `j` of block `key` was unused in `b` and holds `e` in `b'`, and nothing else of `b` changed but the block's dirty flag. */
  ghost predicate NewEntry(b: map<(int, int), Block>, b': map<(int, int), Block>, key: (int, int), j: int, e: DirEntry)
  {
    BlocksOk(b) && BlocksOk(b') && b'.Keys == b.Keys && key in b && 0 <= j < DIR_ENTRIES_PER_BLOCK &&
    EntryIn(b[key].data, j).ino == 0 && EntryIn(b'[key].data, j) == e && b'[key].dirt &&
    (forall m :: 0 <= m < DIR_ENTRIES_PER_BLOCK && m != j ==> EntryIn(b'[key].data, m) == EntryIn(b[key].data, m)) &&
    (forall k :: k in b && k != key ==> b'[k] == b[k])
  }

  /**
   * `LinkAdd` gives back both references it takes and the one on `x`.
   * On success inode `x` has one more link and was changed at `now`, and
   * a formerly unused entry holds its number and the name.
   */
  lemma LinkAddEffect(s1: seq<MInode>, blocks: map<(int, int), Block>, x: int, d: int, name: seq<byte>, now: u32,
                      zoneOf: nat -> int, max: nat)
    requires 0 <= x < |s1| && 0 <= d < |s1| && s1[x].count > 0 && s1[d].Valid() && BlocksOk(blocks)
    requires max <= MAX_ENTRIES
    ensures var o := LinkAdd(s1, blocks, x, d, name, now, zoneOf, max);
            GivenBack(s1, x, o.s) &&
            (o.err == 0 ==>
               o.s[x].d.nlinks == Inc(s1[x].d.nlinks) && o.s[x].ctime == now && o.s[x].dirt &&
               exists key, j :: NewEntry(blocks, o.blocks, key, j, EntryFor(s1[x].num, name)))
  {
    var s3 := Hold(s1, d);
    InsertNew(s3[d], blocks, name, s3[x].num, now, zoneOf, max);
  }

  /** A successful `add_entry_safely` into `dir` fills one formerly unused entry with `num` and `name`, and nothing else. */
  lemma InsertNew(dir: MInode, blocks: map<(int, int), Block>, name: seq<byte>, num: int, now: u32,
                  zoneOf: nat -> int, max: nat)
    requires dir.Valid() && BlocksOk(blocks) && max <= MAX_ENTRIES
    ensures var ins := Insert(dir, blocks, name, |name|, num % 0x10000, now, zoneOf, max);
            ins.k != NONE ==> exists key, j :: NewEntry(blocks, ins.blocks, key, j, EntryFor(num, name))
  {
    var inr := num % 0x10000;
    var ins := Insert(dir, blocks, name, |name|, inr, now, zoneOf, max);
    if ins.k != NONE {
      var key := (dir.dev, AddZone(dir, zoneOf, ins.k / 64));
      forall m | 0 <= m < DIR_ENTRIES_PER_BLOCK
        ensures EntryIn(ins.blocks[key].data, m) ==
                (if m == ins.k % 64 then DirEntry(inr, Padded(name, NameLen(|name|))) else EntryIn(blocks[key].data, m))
      {
        InsertReads(dir, blocks, name, |name|, inr, now, zoneOf, max, m);
      }
      InsertReads(dir, blocks, name, |name|, inr, now, zoneOf, max, 0);
      assert NewEntry(blocks, ins.blocks, key, ins.k % 64, EntryFor(num, name));
    }
  }

  /** `LinkUnder` gives back every reference it takes and the one `namei` took; on success it is `LinkAdd`'s for the base name. */
  lemma LinkUnderEffect(s1: seq<MInode>, supers: seq<Super>, blocks: map<(int, int), Block>, t: Task, suser: bool,
                        x: int, p: Parent, now: u32, zoneOf: nat -> int, max: nat)
    requires Sound(s1, supers) && BlocksOk(blocks) && max <= MAX_ENTRIES
    requires 0 <= x < |s1| && s1[x].count > 0 && (!p.NoDir? ==> 0 <= p.dir < |s1|)
    ensures var o := LinkUnder(s1, supers, blocks, t, suser, x, p, now, zoneOf, max);
            GivenBack(s1, x, o.s) &&
            (o.err == 0 ==>
               p.Base? && o.s[x].d.nlinks == Inc(s1[x].d.nlinks) && o.s[x].ctime == now && o.s[x].dirt &&
               exists key, j :: NewEntry(blocks, o.blocks, key, j, EntryFor(s1[x].num, p.name)))
  {
    if p.Base? && s1[p.dir].dev == s1[x].dev && Permission(s1[p.dir], t.euid, t.egid, MAY_WRITE, suser) {
      var st := Seek(s1, supers, blocks, t.root, p.dir, p.name);
      if st.k == NONE {
        LinkAddEffect(s1, blocks, x, st.dir, p.name, now, zoneOf, max);
      }
    }
  }

  /**
   * `sys_link` gives back every reference it takes. On success `oldpath`
   * named a non-directory, which gains a link and is changed at `now`,
   * and a formerly unused entry holds its number and the base name of
   * `newpath`.
   */
  lemma LinkEffect(s: seq<MInode>, supers: seq<Super>, blocks: map<(int, int), Block>, t: Task, suser: bool,
                   iget: (int, int) -> int, oldpath: seq<byte>, newpath: seq<byte>, now: u32,
                   zoneOf: nat -> int, max: nat)
    requires Sound(s, supers) && Igets(iget, s) && BlocksOk(blocks) && Caller(s, t) && max <= MAX_ENTRIES
    ensures var o := LinkSpec(s, supers, blocks, t, suser, iget, oldpath, newpath, now, zoneOf, max);
            (forall j :: 0 <= j < |s| ==> o.s[j].count == s[j].count) &&
            (o.err == 0 ==>
               var x := Resolve(s, supers, blocks, t, suser, iget, oldpath);
               0 <= x < |s| && !IsDir(s[x].d.mode) && BaseStart(newpath) < |newpath| &&
               o.s[x].d.nlinks == Inc(s[x].d.nlinks) && o.s[x].ctime == now &&
               exists key, j :: NewEntry(blocks, o.blocks, key, j, EntryFor(s[x].num, newpath[BaseStart(newpath)..])))
  {
    var x := Resolve(s, supers, blocks, t, suser, iget, oldpath);
    if x != NONE {
      var s1 := Named(s, x, oldpath, now);
      LikeSound(s, s1, supers, iget, t);
      LinkToEffect(s1, supers, blocks, t, suser, iget, x, newpath, now, zoneOf, max);
      var o := LinkTo(s1, supers, blocks, t, suser, iget, x, newpath, now, zoneOf, max);
      assert LinkSpec(s, supers, blocks, t, suser, iget, oldpath, newpath, now, zoneOf, max) == o;
      assert forall j :: 0 <= j < |s| ==> o.s[j].count == s[j].count by {
        forall j | 0 <= j < |s| ensures o.s[j].count == s[j].count {
          assert GivenBack(s1, x, o.s);
        }
      }
      assert s1[x].d == s[x].d && s1[x].num == s[x].num;
    }
  }

  /** `LinkTo` gives back every reference it takes and the one `namei` took; on success it is `LinkAdd`'s for the base name. */
  lemma LinkToEffect(s1: seq<MInode>, supers: seq<Super>, blocks: map<(int, int), Block>, t: Task, suser: bool,
                     iget: (int, int) -> int, x: int, newpath: seq<byte>, now: u32, zoneOf: nat -> int, max: nat)
    requires Sound(s1, supers) && Igets(iget, s1) && BlocksOk(blocks) && Caller(s1, t) && max <= MAX_ENTRIES
    requires 0 <= x < |s1| && s1[x].count > 0
    ensures var o := LinkTo(s1, supers, blocks, t, suser, iget, x, newpath, now, zoneOf, max);
            GivenBack(s1, x, o.s) &&
            (o.err == 0 ==>
               !IsDir(s1[x].d.mode) && BaseStart(newpath) < |newpath| &&
               o.s[x].d.nlinks == Inc(s1[x].d.nlinks) && o.s[x].ctime == now &&
               exists key, j :: NewEntry(blocks, o.blocks, key, j, EntryFor(s1[x].num, newpath[BaseStart(newpath)..])))
  {
    if !IsDir(s1[x].d.mode) {
      var p := ParentOf(s1, supers, blocks, t, suser, iget, newpath);
      LinkUnderEffect(s1, supers, blocks, t, suser, x, p, now, zoneOf, max);
    }
  }

  /** `LinkAdd` dirties only slots on a device. */
  lemma LinkAddClean(s1: seq<MInode>, blocks: map<(int, int), Block>, x: int, d: int, name: seq<byte>, now: u32,
                     zoneOf: nat -> int, max: nat)
    requires 0 <= x < |s1| && 0 <= d < |s1| && s1[x].count > 0 && BlocksOk(blocks) && max <= MAX_ENTRIES
    requires Clean(s1) && s1[d].dev != 0 && s1[x].dev != 0
    ensures Clean(LinkAdd(s1, blocks, x, d, name, now, zoneOf, max).s)
  {
  }

  /** `LinkTo` dirties only slots on a device. */
  lemma LinkToClean(s1: seq<MInode>, supers: seq<Super>, blocks: map<(int, int), Block>, t: Task, suser: bool,
                    iget: (int, int) -> int, x: int, newpath: seq<byte>, now: u32, zoneOf: nat -> int, max: nat)
    requires Sound(s1, supers) && Igets(iget, s1) && BlocksOk(blocks) && Caller(s1, t) && max <= MAX_ENTRIES
    requires 0 <= x < |s1| && s1[x].count > 0 && s1[x].dev != 0 && Clean(s1)
    ensures Clean(LinkTo(s1, supers, blocks, t, suser, iget, x, newpath, now, zoneOf, max).s)
  {
    DropClean(s1, x);
    if !IsDir(s1[x].d.mode) {
      var p := ParentOf(s1, supers, blocks, t, suser, iget, newpath);
      LinkUnderClean(s1, supers, blocks, t, suser, x, p, now, zoneOf, max);
    }
  }

  /** `LinkUnder` dirties only slots on a device. */
  lemma LinkUnderClean(s1: seq<MInode>, supers: seq<Super>, blocks: map<(int, int), Block>, t: Task, suser: bool,
                       x: int, p: Parent, now: u32, zoneOf: nat -> int, max: nat)
    requires Sound(s1, supers) && BlocksOk(blocks) && max <= MAX_ENTRIES
    requires 0 <= x < |s1| && s1[x].count > 0 && (!p.NoDir? ==> 0 <= p.dir < |s1|)
    requires s1[x].dev != 0 && Clean(s1) && Clean(Drop(s1, x))
    ensures Clean(LinkUnder(s1, supers, blocks, t, suser, x, p, now, zoneOf, max).s)
  {
    if p.Base? && s1[p.dir].dev == s1[x].dev && Permission(s1[p.dir], t.euid, t.egid, MAY_WRITE, suser) {
      var st := Seek(s1, supers, blocks, t.root, p.dir, p.name);
      if st.k == NONE {
        LinkAddClean(s1, blocks, x, st.dir, p.name, now, zoneOf, max);
      }
    }
  }

  /** `iput` of a held slot dirties nothing. */
  lemma DropClean(s: seq<MInode>, x: int)
    requires 0 <= x < |s| && s[x].count > 0 && Clean(s)
    ensures Clean(Drop(s, x))
  {
  }

  /** `sys_link` dirties only slots on a device. */
  lemma LinkClean(s: seq<MInode>, supers: seq<Super>, blocks: map<(int, int), Block>, t: Task, suser: bool,
                  iget: (int, int) -> int, oldpath: seq<byte>, newpath: seq<byte>, now: u32,
                  zoneOf: nat -> int, max: nat)
    requires Sound(s, supers) && Igets(iget, s) && BlocksOk(blocks) && Caller(s, t) && max <= MAX_ENTRIES && Clean(s)
    ensures Clean(LinkSpec(s, supers, blocks, t, suser, iget, oldpath, newpath, now, zoneOf, max).s)
  {
    var x := Resolve(s, supers, blocks, t, suser, iget, oldpath);
    if x != NONE {
      var s1 := Named(s, x, oldpath, now);
      LikeSound(s, s1, supers, iget, t);
      LinkToClean(s1, supers, blocks, t, suser, iget, x, newpath, now, zoneOf, max);
    }
  }

  /** `sys_link` on the file-system tables: the inode table and the blocks become those of `LinkSpec`. */
  method Link(fs: FileSystem, t: Task, suser: bool, iget: (int, int) -> int, oldpath: seq<byte>, newpath: seq<byte>,
              now: u32, zoneOf: nat -> int, max: nat)
    returns (r: int)
    requires fs.Valid() && Sound(fs.inodes, fs.supers) && Igets(iget, fs.inodes) && Caller(fs.inodes, t)
    requires max <= MAX_ENTRIES
    modifies fs
    ensures var o := LinkSpec(old(fs.inodes), old(fs.supers), old(fs.blocks), t, suser, iget, oldpath, newpath, now, zoneOf, max);
            r == o.err && fs.inodes == o.s && fs.blocks == o.blocks
    ensures fs.supers == old(fs.supers) && fs.files == old(fs.files)
    ensures fs.lastInode == old(fs.lastInode) && fs.rootDev == old(fs.rootDev)
    ensures fs.Valid()
  {
    var o := LinkIn(fs.inodes, fs.supers, fs.blocks, t, suser, iget, oldpath, newpath, now, zoneOf, max);
    LinkClean(fs.inodes, fs.supers, fs.blocks, t, suser, iget, oldpath, newpath, now, zoneOf, max);
    fs.inodes, fs.blocks := o.s, o.blocks;
    r := o.err;
  }
}
