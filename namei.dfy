/*
 * The path walk of fs/namei.c: `find_entry` with its `..` cases,
 * `get_dir_i`, `dir_namei` and `namei`.
 *
 * A path is the bytes of the user string before its NUL. The walk runs
 * on the inode table and the block store of the file-system tables.
 * `iget` is given as the slot it ends on for a device and an inode
 * number (NONE when it finds no free slot); the walk adds the reference
 * iget takes, and `iput` takes one away. What `iget` does to load an
 * inode, and what the last `iput` does, belong to module Iref.
 *
 * Only reference counts change during a walk, and no lookup reads one,
 * so the specification functions read the table `s` the walk starts
 * from and give the slot it ends on; the methods keep the references
 * on the tables and end with exactly one more on that slot.
 */
module Namei {
  import opened Layout
  import opened Records
  import opened Tables
  import opened Bmap
  import opened Dirs

  const SLASH: byte := 47
  const DOT: byte := 46

  // ---------------------------------------------------------------------
  // References
  // ---------------------------------------------------------------------

  /** The table after `iget` or `i_count++` on slot `x`. */
  function Hold(s: seq<MInode>, x: int): (s': seq<MInode>)
    requires 0 <= x < |s|
    ensures |s'| == |s| && s'[x].count == s[x].count + 1
  {
    s[x := s[x].(count := s[x].count + 1)]
  }

  /** The table after `iput` on slot `x` takes its reference away. */
  function Drop(s: seq<MInode>, x: int): (s': seq<MInode>)
    requires 0 <= x < |s| && s[x].count > 0
    ensures |s'| == |s| && s'[x].count == s[x].count - 1
  {
    s[x := s[x].(count := s[x].count - 1)]
  }

  /** `iput` undoes `iget`. */
  lemma HoldDrop(s: seq<MInode>, x: int)
    requires 0 <= x < |s|
    ensures Drop(Hold(s, x), x) == s
  {
    assert Drop(Hold(s, x), x)[x] == s[x];
  }

  /** Storing `a` at `x` and `b` at `d` and then giving back one reference to each. */
  lemma DropBoth(s: seq<MInode>, x: int, a: MInode, d: int, b: MInode)
    requires 0 <= x < |s| && 0 <= d < |s| && x != d && a.count > 0 && b.count > 0
    ensures var o := Drop(Drop(s[x := a][d := b], x), d);
            |o| == |s| && o[x] == a.(count := a.count - 1) && o[d] == b.(count := b.count - 1) &&
            forall j :: 0 <= j < |s| && j != x && j != d ==> o[j] == s[j]
  {
  }

  // ---------------------------------------------------------------------
  // What the walk relies on
  // ---------------------------------------------------------------------

  /**
   * The table the walk runs on: every record sound and every size one
   * `bmap` can map, and every superblock's mount point a slot of the
   * table on a device.
   */
  ghost predicate Sound(s: seq<MInode>, supers: seq<Super>)
  {
    |s| == NR_INODE &&
    (forall k :: 0 <= k < |s| ==> s[k].Valid() && SizeOk(s[k])) &&
    forall k :: 0 <= k < |supers| ==>
      supers[k].imount == NONE || (0 <= supers[k].imount < |s| && s[supers[k].imount].dev != 0)
  }

  /**
   * `iget(dev, nr)` ends on a slot of the table on a device, holding
   * inode `nr` of `dev` or, past a mount point, a root inode; or on
   * NONE. It never ends on a pipe: a pipe's inode has no device.
   */
  ghost predicate Igets(iget: (int, int) -> int, s: seq<MInode>)
  {
    forall dev: int, nr: int :: iget(dev, nr) == NONE ||
      (0 <= iget(dev, nr) < |s| && s[iget(dev, nr)].dev != 0 && !s[iget(dev, nr)].pipe &&
       ((s[iget(dev, nr)].dev == dev && s[iget(dev, nr)].num == nr) || s[iget(dev, nr)].num == ROOT_INO))
  }

  /** The caller's root and working directory are slots in use on a device (`get_dir_i` halts otherwise). */
  ghost predicate Caller(s: seq<MInode>, t: Task)
  {
    0 <= t.root < |s| && s[t.root].count > 0 && s[t.root].dev != 0 &&
    0 <= t.pwd < |s| && s[t.pwd].count > 0 && s[t.pwd].dev != 0
  }

  // ---------------------------------------------------------------------
  // find_entry(): the `..` cases and the entry found
  // ---------------------------------------------------------------------

  /** The name is `..`. */
  predicate DotDot(name: seq<byte>)
  {
    |name| == 2 && name[0] == DOT && name[1] == DOT
  }

  /** The inode number in entry `k` of directory `i`; 0 when its block cannot be read. */
  function InoAt(i: MInode, blocks: map<(int, int), Block>, k: int): (r: int)
    requires i.Valid() && BlocksOk(blocks)
  {
    if k >= 0 && Readable(DirBlock(i, blocks, k / 64)) then EntryIn(DirBlock(i, blocks, k / 64).data, k % 64).ino
    else 0
  }

  /** The inode number `find_entry` finds under the first `len` bytes of `name` in directory `i`, or NONE. */
  function FoundIno(i: MInode, blocks: map<(int, int), Block>, len: int, name: seq<byte>): (ino: int)
    requires i.Valid() && BlocksOk(blocks) && 0 < len <= |name|
    ensures ino == NONE || ino > 0
  {
    var k := Found(i, blocks, len, name);
    FoundFirst(i, blocks, len, name);
    if k == NONE then NONE else InoAt(i, blocks, k)
  }

  /** A directory's entries do not depend on its reference count. */
  lemma FoundInoCount(i: MInode, blocks: map<(int, int), Block>, len: int, name: seq<byte>, c: nat)
    requires i.Valid() && BlocksOk(blocks) && 0 < len <= |name|
    ensures Found(i.(count := c), blocks, len, name) == Found(i, blocks, len, name)
    ensures FoundIno(i.(count := c), blocks, len, name) == FoundIno(i, blocks, len, name)
  {
    var i' := i.(count := c);
    var v, v' := DirView(i, blocks), DirView(i', blocks);
    FoundFirst(i, blocks, len, name);
    FoundFirst(i', blocks, len, name);
    assert forall n: nat :: v'(n) == v(n);
    assert forall m: nat :: Hit(v', len, name, m) == Hit(v, len, name, m);
    var r, r' := Found(i, blocks, len, name), Found(i', blocks, len, name);
    if r != NONE && r' != NONE {
      assert !(r < r') && !(r' < r);
    }
  }

  /** The entry `find_entry` finds lies in a block that was read and holds the inode number found. */
  lemma FoundAt(i: MInode, blocks: map<(int, int), Block>, len: int, name: seq<byte>)
    requires i.Valid() && BlocksOk(blocks) && 0 < len <= |name|
    ensures var k := Found(i, blocks, len, name);
            (k == NONE <==> FoundIno(i, blocks, len, name) == NONE) &&
            (k != NONE ==> 0 <= k && Readable(DirBlock(i, blocks, k / 64)) &&
                           EntryIn(DirBlock(i, blocks, k / 64).data, k % 64).ino == FoundIno(i, blocks, len, name))
  {
    FoundFirst(i, blocks, len, name);
  }

  /**
   * The directory `..` at the root inode of a mounted device leads to:
   * the mount point, when `get_super` finds the device and it is mounted
   * somewhere; else the directory itself.
   */
  function MountPoint(s: seq<MInode>, supers: seq<Super>, dir: int): (d: int)
    requires Sound(s, supers) && 0 <= dir < |s|
    ensures 0 <= d < |s| && (d != dir ==> s[d].dev != 0)
  {
    var sb := SuperOf(supers, s[dir].dev);
    if sb != NONE && supers[sb].imount != NONE then supers[sb].imount else dir
  }

  /**
   * Where the `..` cases of `find_entry` leave the search for `name` from
   * slot `dir`, for a caller whose root is `root`: the directory to
   * search and the length to compare. A name is cut to 14 bytes. `..`
   * in the caller's root is looked up as `.`; `..` in the root inode of
   * a mounted device is looked up in the mount point.
   */
  function Turn(s: seq<MInode>, supers: seq<Super>, root: int, dir: int, name: seq<byte>): (r: (int, int))
    requires Sound(s, supers) && 0 <= dir < |s|
    ensures 0 <= r.0 < |s| && r.1 <= |name| && r.1 <= NAME_LEN && (r.1 > 0 <==> |name| > 0)
    ensures r.1 == 1 && |name| > 1 ==> DotDot(name) && dir == root && r.0 == dir
    ensures r.0 != dir ==> DotDot(name) && dir != root && s[dir].num == ROOT_INO && s[r.0].dev != 0
  {
    var len := NameLen(|name|);
    if len == 0 then (dir, 0)
    else if DotDot(name) && dir == root then (dir, 1)
    else if DotDot(name) && s[dir].num == ROOT_INO then (MountPoint(s, supers, dir), len)
    else (dir, len)
  }

  /** Where `find_entry` ends: the directory it searched, the entry it found and that entry's inode number (or NONE, NONE). */
  datatype Sought = Sought(dir: int, k: int, ino: int)

  /**
   * `find_entry(&dir, name, namelen)` from slot `dir`: the search `Turn`
   * sets up, where moving to a mount point gives up the reference on
   * `dir` for one there. An empty name finds nothing.
   */
  function Seek(s: seq<MInode>, supers: seq<Super>, blocks: map<(int, int), Block>, root: int, dir: int,
                name: seq<byte>): (r: Sought)
    requires Sound(s, supers) && BlocksOk(blocks) && 0 <= dir < |s|
    ensures 0 <= r.dir < |s| && (r.ino == NONE || r.ino > 0)
    ensures |name| == 0 ==> r == Sought(dir, NONE, NONE)
    ensures r.dir != dir ==> DotDot(name) && dir != root && s[dir].num == ROOT_INO && s[r.dir].dev != 0
  {
    var (d, len) := Turn(s, supers, root, dir, name);
    if len == 0 then Sought(d, NONE, NONE) else Sought(d, Found(s[d], blocks, len, name), FoundIno(s[d], blocks, len, name))
  }

  /** The entry `k` that `FindEntry` returned: its inode number. */
  method ReadIno(i: MInode, blocks: map<(int, int), Block>, k: int) returns (ino: int)
    requires i.Valid() && BlocksOk(blocks)
    ensures ino == InoAt(i, blocks, k)
  {
    if k < 0 {
      return 0;
    }
    var v := DirBlock(i, blocks, k / 64);
    if Readable(v) {
      ino := EntryIn(v.data, k % 64).ino;
    } else {
      ino := 0;
    }
  }

  /** The `..` cases of `find_entry` (fs/namei.c:217-242) from slot `dir`, held over the table `s0`. */
  method TurnIn(s: seq<MInode>, ghost s0: seq<MInode>, supers: seq<Super>, root: int, dir: int, name: seq<byte>)
    returns (d: int, len: int, s': seq<MInode>)
    requires Sound(s0, supers) && 0 <= dir < |s0| && s == Hold(s0, dir)
    ensures (d, len) == Turn(s0, supers, root, dir, name) && s' == Hold(s0, d)
  {
    len := NameLen(|name|);
    d, s' := dir, s;
    if len == 2 && name[0] == DOT && name[1] == DOT {
      if dir == root {
        len := 1;
      } else if s[dir].num == ROOT_INO {
        var sb := SuperOf(supers, s[dir].dev);
        if sb != NONE && supers[sb].imount != NONE {
          HoldDrop(s0, dir);
          d := supers[sb].imount;
          s' := Hold(Drop(s, dir), d);
        }
      }
    }
  }

  /** `find_entry` (fs/namei.c:208-279) from slot `dir`, held over the table `s0`. */
  method FindIn(s: seq<MInode>, ghost s0: seq<MInode>, supers: seq<Super>, blocks: map<(int, int), Block>,
                root: int, dir: int, name: seq<byte>)
    returns (d: int, k: int, ino: int, s': seq<MInode>)
    requires Sound(s0, supers) && BlocksOk(blocks) && 0 <= dir < |s0| && s == Hold(s0, dir)
    ensures Sought(d, k, ino) == Seek(s0, supers, blocks, root, dir, name) && s' == Hold(s0, d)
  {
    var len;
    d, len, s' := TurnIn(s, s0, supers, root, dir, name);
    if len == 0 {
      return d, NONE, NONE, s';
    }
    k := FindEntry(s'[d], blocks, len, name);
    if k == NONE {
      ino := NONE;
    } else {
      ino := ReadIno(s'[d], blocks, k);
    }
    FoundInoCount(s0[d], blocks, len, name, s0[d].count + 1);
  }

  // ---------------------------------------------------------------------
  // get_dir_i()
  // ---------------------------------------------------------------------

  /** The first `/` at or after `pos`, or the end of the path: where the component at `pos` ends. */
  function CompEnd(path: seq<byte>, pos: nat): (e: nat)
    requires pos <= |path|
    ensures pos <= e <= |path| && (e < |path| ==> path[e] == SLASH)
    ensures forall j :: pos <= j < e ==> path[j] != SLASH
    decreases |path| - pos
  {
    if pos == |path| || path[pos] == SLASH then pos else CompEnd(path, pos + 1)
  }

  /** Inode `i` is a directory the caller may search. */
  predicate Searchable(i: MInode, t: Task, suser: bool)
  {
    IsDir(i.d.mode) && Permission(i, t.euid, t.egid, MAY_EXEC, suser)
  }

  /**
   * The step `get_dir_i` and `namei` take from directory `dir` to the
   * entry `name`: `find_entry`, the `iput` of the directory it ends on,
   * and the `iget` of the inode the entry names; NONE when no entry
   * matches or `iget` fails.
   */
  function Enter(s: seq<MInode>, supers: seq<Super>, blocks: map<(int, int), Block>, root: int,
                 iget: (int, int) -> int, dir: int, name: seq<byte>): (r: int)
    requires Sound(s, supers) && Igets(iget, s) && BlocksOk(blocks) && 0 <= dir < |s|
    ensures r == NONE || (0 <= r < |s| && s[r].dev != 0)
  {
    var st := Seek(s, supers, blocks, root, dir, name);
    if st.ino == NONE then NONE else iget(s[st.dir].dev, st.ino)
  }

  /** `Enter` from slot `dir`, held over the table `s0`: the table ends holding the slot it returns. */
  method EnterIn(s: seq<MInode>, ghost s0: seq<MInode>, supers: seq<Super>, blocks: map<(int, int), Block>,
                 root: int, iget: (int, int) -> int, dir: int, name: seq<byte>)
    returns (r: int, s': seq<MInode>)
    requires Sound(s0, supers) && Igets(iget, s0) && BlocksOk(blocks) && 0 <= dir < |s0| && s == Hold(s0, dir)
    ensures r == Enter(s0, supers, blocks, root, iget, dir, name)
    ensures s' == if r == NONE then s0 else Hold(s0, r)
  {
    var d, k, ino;
    d, k, ino, s' := FindIn(s, s0, supers, blocks, root, dir, name);
    var dev := s'[d].dev;
    HoldDrop(s0, d);
    s' := Drop(s', d);
    if ino == NONE {
      return NONE, s';
    }
    r := iget(dev, ino);
    if r != NONE {
      s' := Hold(s', r);
    }
  }

  /** `EnterIn` as the walk sees it: through its lookups `look`. */
  method LookIn(s: seq<MInode>, ghost s0: seq<MInode>, ghost look: (int, seq<byte>) -> int, supers: seq<Super>,
                blocks: map<(int, int), Block>, root: int, iget: (int, int) -> int, dir: int, name: seq<byte>)
    returns (r: int, s': seq<MInode>)
    requires Walking(look, s0, supers, blocks, root, iget) && 0 <= dir < |s0| && s == Hold(s0, dir)
    ensures r == look(dir, name)
    ensures s' == if r == NONE then s0 else Hold(s0, r)
  {
    r, s' := EnterIn(s, s0, supers, blocks, root, iget, dir, name);
  }

  /**
   * One pass of the loop of `get_dir_i`: it stops with the directory it
   * returns (NONE on failure), or goes on at slot `nx` with the path
   * after the component ending at `e`.
   */
  datatype Step = Stop(dir: int) | Go(nx: int, e: nat)

  /**
   * The lookups a walk makes: `look(d, name)` is the slot `Enter` ends on
   * for `name` from slot `d`. The walk sees the table through this
   * function only, so reasoning about a walk does not reopen the
   * directory search of each step.
   */
  ghost predicate Looks(look: (int, seq<byte>) -> int, s: seq<MInode>, supers: seq<Super>,
                        blocks: map<(int, int), Block>, root: int, iget: (int, int) -> int)
    requires Sound(s, supers) && Igets(iget, s) && BlocksOk(blocks)
  {
    forall d: int, name: seq<byte> {:trigger Enter(s, supers, blocks, root, iget, d, name)} ::
      0 <= d < |s| ==> look(d, name) == Enter(s, supers, blocks, root, iget, d, name)
  }

  /** Every lookup ends on a slot of `s` on a device, or fails. */
  ghost predicate Lands(look: (int, seq<byte>) -> int, s: seq<MInode>)
  {
    forall d: int, name: seq<byte> :: look(d, name) == NONE || (0 <= look(d, name) < |s| && s[look(d, name)].dev != 0)
  }

  /** `look` gives the lookups of a walk on the sound table `s` by a caller whose root is `root`. */
  ghost predicate Walking(look: (int, seq<byte>) -> int, s: seq<MInode>, supers: seq<Super>,
                          blocks: map<(int, int), Block>, root: int, iget: (int, int) -> int)
  {
    Sound(s, supers) && Igets(iget, s) && BlocksOk(blocks) && Lands(look, s) &&
    Looks(look, s, supers, blocks, root, iget)
  }

  /** The lookups of a walk on the table `s` by a caller whose root is `root`. */
  function Look(s: seq<MInode>, supers: seq<Super>, blocks: map<(int, int), Block>, root: int,
                iget: (int, int) -> int): (look: (int, seq<byte>) -> int)
    requires Sound(s, supers) && Igets(iget, s) && BlocksOk(blocks)
    ensures Lands(look, s) && Looks(look, s, supers, blocks, root, iget)
  {
    (d: int, name: seq<byte>) => if 0 <= d < |s| then Enter(s, supers, blocks, root, iget, d, name) else NONE
  }

  /**
   * The pass at slot `dir` with the rest of the path from `pos`: `dir`
   * must be a directory the caller may search; at the last component the
   * loop returns it; otherwise it steps to the component's entry.
   */
  function Next(s: seq<MInode>, t: Task, suser: bool, look: (int, seq<byte>) -> int,
                path: seq<byte>, dir: int, pos: nat): (r: Step)
    requires Lands(look, s) && 0 <= dir < |s| && pos <= |path|
    ensures r.Stop? ==> r.dir == NONE || (r.dir == dir && Searchable(s[dir], t, suser))
    ensures r.Go? ==> 0 <= r.nx < |s| && s[r.nx].dev != 0 && pos <= r.e < |path|
  {
    if !Searchable(s[dir], t, suser) then Stop(NONE)
    else
      var e := CompEnd(path, pos);
      if e == |path| then Stop(dir)
      else
        var r := look(dir, path[pos..e]);
        if r == NONE then Stop(NONE) else Go(r, e)
  }

  /**
   * The loop of `get_dir_i` from slot `dir` with the rest of the path
   * from `pos`: it ends on a directory the caller may search, or fails.
   */
  function Walk(s: seq<MInode>, t: Task, suser: bool, look: (int, seq<byte>) -> int,
                path: seq<byte>, dir: int, pos: nat): (r: int)
    requires Lands(look, s) && 0 <= dir < |s| && s[dir].dev != 0 && pos <= |path|
    ensures r == NONE || (0 <= r < |s| && s[r].dev != 0 && Searchable(s[r], t, suser))
    ensures r != NONE ==> Searchable(s[dir], t, suser)
    ensures CompEnd(path, pos) == |path| ==> r == if Searchable(s[dir], t, suser) then dir else NONE
    decreases |path| - pos
  {
    var n := Next(s, t, suser, look, path, dir, pos);
    if n.Stop? then n.dir else Walk(s, t, suser, look, path, n.nx, n.e + 1)
  }

  /**
   * `get_dir_i(path)`: nothing for an empty path; otherwise the walk
   * from the caller's root for a path starting with `/` (past that
   * `/`), from the working directory for any other.
   */
  function GetDir(s: seq<MInode>, supers: seq<Super>, blocks: map<(int, int), Block>, t: Task, suser: bool,
                  iget: (int, int) -> int, path: seq<byte>): (r: int)
    requires Sound(s, supers) && Igets(iget, s) && BlocksOk(blocks) && Caller(s, t)
    ensures r == NONE || (0 <= r < |s| && s[r].dev != 0 && Searchable(s[r], t, suser))
    ensures |path| == 0 ==> r == NONE
  {
    var look := Look(s, supers, blocks, t.root, iget);
    if |path| == 0 then NONE
    else if path[0] == SLASH then Walk(s, t, suser, look, path, t.root, 1)
    else Walk(s, t, suser, look, path, t.pwd, 0)
  }

  /** The inner loop of `get_dir_i`: count the bytes of the component at `pos`. */
  method ScanComp(path: seq<byte>, pos: nat) returns (e: nat)
    requires pos <= |path|
    ensures e == CompEnd(path, pos)
  {
    e := pos;
    while e < |path| && path[e] != SLASH
      invariant pos <= e <= |path| && CompEnd(path, e) == CompEnd(path, pos)
      decreases |path| - e
    {
      e := e + 1;
    }
  }

  /** One pass of the loop of `get_dir_i` (fs/namei.c:309-340) at slot `dir`, held over the table `s0`. */
  method NextIn(s: seq<MInode>, ghost s0: seq<MInode>, ghost look: (int, seq<byte>) -> int, supers: seq<Super>,
                blocks: map<(int, int), Block>, t: Task, suser: bool, iget: (int, int) -> int,
                path: seq<byte>, dir: int, pos: nat)
    returns (stop: bool, nd: int, e: nat, s': seq<MInode>)
    requires Walking(look, s0, supers, blocks, t.root, iget) && 0 <= dir < |s0| && pos <= |path|
    requires s == Hold(s0, dir)
    ensures var n := Next(s0, t, suser, look, path, dir, pos);
            stop == n.Stop? && (stop ==> nd == n.dir) && (!stop ==> nd == n.nx && e == n.e)
    ensures s' == if nd == NONE then s0 else Hold(s0, nd)
  {
    var i := s[dir];
    assert Searchable(i, t, suser) == Searchable(s0[dir], t, suser);
    if !IsDir(i.d.mode) || !Permission(i, t.euid, t.egid, MAY_EXEC, suser) {
      HoldDrop(s0, dir);
      return true, NONE, 0, Drop(s, dir);
    }
    e := ScanComp(path, pos);
    if e == |path| {
      return true, dir, 0, s;
    }
    nd, s' := LookIn(s, s0, look, supers, blocks, t.root, iget, dir, path[pos..e]);
    stop := nd == NONE;
  }

  /** The loop of `get_dir_i` (fs/namei.c:309-340) from slot `dir`, held over the table `s0`. */
  method WalkIn(s: seq<MInode>, ghost s0: seq<MInode>, ghost look: (int, seq<byte>) -> int, supers: seq<Super>,
                blocks: map<(int, int), Block>, t: Task, suser: bool, iget: (int, int) -> int,
                path: seq<byte>, dir: int, pos: nat)
    returns (r: int, s': seq<MInode>)
    requires Walking(look, s0, supers, blocks, t.root, iget) && 0 <= dir < |s0| && s0[dir].dev != 0
    requires pos <= |path| && s == Hold(s0, dir)
    ensures r == Walk(s0, t, suser, look, path, dir, pos)
    ensures s' == if r == NONE then s0 else Hold(s0, r)
  {
    var d, p := dir, pos;
    s' := s;
    while true
      invariant 0 <= d < |s0| && s0[d].dev != 0 && p <= |path| && s' == Hold(s0, d)
      invariant Walk(s0, t, suser, look, path, d, p) == Walk(s0, t, suser, look, path, dir, pos)
      decreases |path| - p
    {
      var stop, nd, e;
      stop, nd, e, s' := StepIn(s', s0, look, supers, blocks, t, suser, iget, path, d, p);
      if stop {
        return nd, s';
      }
      d, p := nd, e + 1;
    }
  }

  /** One pass of the loop of `get_dir_i`, stated as the walk it leaves to do. */
  method StepIn(s: seq<MInode>, ghost s0: seq<MInode>, ghost look: (int, seq<byte>) -> int, supers: seq<Super>,
                blocks: map<(int, int), Block>, t: Task, suser: bool, iget: (int, int) -> int,
                path: seq<byte>, dir: int, pos: nat)
    returns (stop: bool, nd: int, e: nat, s': seq<MInode>)
    requires Walking(look, s0, supers, blocks, t.root, iget) && 0 <= dir < |s0| && s0[dir].dev != 0 && pos <= |path|
    requires s == Hold(s0, dir)
    ensures stop ==> nd == Walk(s0, t, suser, look, path, dir, pos) && s' == if nd == NONE then s0 else Hold(s0, nd)
    ensures !stop ==> 0 <= nd < |s0| && s0[nd].dev != 0 && pos <= e < |path| && s' == Hold(s0, nd) &&
                      Walk(s0, t, suser, look, path, nd, e + 1) == Walk(s0, t, suser, look, path, dir, pos)
  {
    stop, nd, e, s' := NextIn(s, s0, look, supers, blocks, t, suser, iget, path, dir, pos);
  }

  /** `get_dir_i` (fs/namei.c:287-342): the table ends holding the directory it returns. */
  method GetDirIn(s: seq<MInode>, supers: seq<Super>, blocks: map<(int, int), Block>, t: Task, suser: bool,
                  iget: (int, int) -> int, path: seq<byte>)
    returns (dir: int, s': seq<MInode>)
    requires Sound(s, supers) && Igets(iget, s) && BlocksOk(blocks) && Caller(s, t)
    ensures dir == GetDir(s, supers, blocks, t, suser, iget, path)
    ensures s' == if dir == NONE then s else Hold(s, dir)
  {
    if |path| == 0 {
      return NONE, s;
    }
    var start, pos := t.pwd, 0;
    if path[0] == SLASH {
      start, pos := t.root, 1;
    }
    dir, s' := WalkIn(Hold(s, start), s, Look(s, supers, blocks, t.root, iget), supers, blocks, t, suser, iget,
                      path, start, pos);
  }

  // ---------------------------------------------------------------------
  // dir_namei() and namei()
  // ---------------------------------------------------------------------

  /** Where the last component of `path` starts: just past its last `/`, or 0 without one. */
  function BaseStart(path: seq<byte>): (b: nat)
    ensures b <= |path| && (b > 0 ==> path[b - 1] == SLASH)
    ensures forall j :: b <= j < |path| ==> path[j] != SLASH
  {
    if |path| == 0 then 0
    else if path[|path| - 1] == SLASH then |path|
    else BaseStart(path[..|path| - 1])
  }

  /** The scan of `dir_namei` for the last `/` (fs/namei.c:362-364). */
  method Basename(path: seq<byte>) returns (b: nat)
    ensures b == BaseStart(path)
  {
    b := 0;
    var j := 0;
    while j < |path|
      invariant 0 <= j <= |path| && b == BaseStart(path[..j])
    {
      assert path[..j + 1][..j] == path[..j];
      if path[j] == SLASH {
        b := j + 1;
      }
      j := j + 1;
    }
    assert path[..j] == path;
  }

  /**
   * `dir_namei(path)` (fs/namei.c:350-370): the directory `get_dir_i`
   * returns, holding it, and where the base name starts; the base name
   * is empty when the path ends in `/`.
   */
  method DirNameiIn(s: seq<MInode>, supers: seq<Super>, blocks: map<(int, int), Block>, t: Task, suser: bool,
                    iget: (int, int) -> int, path: seq<byte>)
    returns (dir: int, base: nat, s': seq<MInode>)
    requires Sound(s, supers) && Igets(iget, s) && BlocksOk(blocks) && Caller(s, t)
    ensures dir == GetDir(s, supers, blocks, t, suser, iget, path)
    ensures s' == if dir == NONE then s else Hold(s, dir)
    ensures dir != NONE ==> base == BaseStart(path)
  {
    dir, s' := GetDirIn(s, supers, blocks, t, suser, iget, path);
    if dir == NONE {
      return NONE, 0, s';
    }
    base := Basename(path);
  }

  /** The slot `x` after `namei` sets its access time to `now` and marks it dirty. */
  function Touched(s: seq<MInode>, x: int, now: u32): (s': seq<MInode>)
    requires 0 <= x < |s|
    ensures |s'| == |s| && s'[x].atime == now && s'[x].dirt
  {
    s[x := s[x].(atime := now, dirt := true)]
  }

  /**
   * `namei(path)`: the directory `dir_namei` returns when the base name
   * is empty; otherwise the slot `iget` gives for the base name's entry
   * there; NONE when either step fails.
   */
  function Resolve(s: seq<MInode>, supers: seq<Super>, blocks: map<(int, int), Block>, t: Task, suser: bool,
                   iget: (int, int) -> int, path: seq<byte>): (r: int)
    requires Sound(s, supers) && Igets(iget, s) && BlocksOk(blocks) && Caller(s, t)
    ensures r == NONE || (0 <= r < |s| && s[r].dev != 0)
    ensures |path| == 0 ==> r == NONE
  {
    var dir := GetDir(s, supers, blocks, t, suser, iget, path);
    if dir == NONE || BaseStart(path) == |path| then dir
    else Enter(s, supers, blocks, t.root, iget, dir, path[BaseStart(path)..])
  }

  /**
   * `namei` (fs/namei.c:439-483) at time `now`: the table ends holding
   * the slot it returns, its access time set when it was found under a
   * base name.
   */
  method NameiIn(s: seq<MInode>, supers: seq<Super>, blocks: map<(int, int), Block>, t: Task, suser: bool,
                 iget: (int, int) -> int, path: seq<byte>, now: u32)
    returns (r: int, s': seq<MInode>)
    requires Sound(s, supers) && Igets(iget, s) && BlocksOk(blocks) && Caller(s, t)
    ensures r == Resolve(s, supers, blocks, t, suser, iget, path)
    ensures s' == if r == NONE then s
                  else if BaseStart(path) < |path| then Touched(Hold(s, r), r, now)
                  else Hold(s, r)
  {
    var dir, base;
    dir, base, s' := DirNameiIn(s, supers, blocks, t, suser, iget, path);
    if dir == NONE || base == |path| {
      return dir, s';
    }
    r, s' := EnterIn(s', s, supers, blocks, t.root, iget, dir, path[base..]);
    if r != NONE {
      s' := Touched(s', r, now);
    }
  }

  /** Taking a reference, and setting the access time of a slot on a device, keep the table's records sound. */
  lemma TouchKeepsRecords(fs: FileSystem, s: seq<MInode>, r: int, now: u32)
    requires fs.Valid() && s == fs.inodes && 0 <= r < |s| && s[r].dev != 0
    ensures forall k :: 0 <= k < NR_INODE ==>
              Hold(s, r)[k].Valid() && (Hold(s, r)[k].dirt ==> Hold(s, r)[k].dev != 0) &&
              Touched(Hold(s, r), r, now)[k].Valid() &&
              (Touched(Hold(s, r), r, now)[k].dirt ==> Touched(Hold(s, r), r, now)[k].dev != 0)
  {
  }

  /** `namei` on the file-system tables: the inode table takes the references and times `NameiIn` gives. */
  method Namei(fs: FileSystem, t: Task, suser: bool, iget: (int, int) -> int, path: seq<byte>, now: u32)
    returns (r: int)
    requires fs.Valid() && Sound(fs.inodes, fs.supers) && Igets(iget, fs.inodes) && Caller(fs.inodes, t)
    modifies fs
    ensures fs.blocks == old(fs.blocks) && fs.supers == old(fs.supers) && fs.files == old(fs.files)
    ensures fs.lastInode == old(fs.lastInode) && fs.rootDev == old(fs.rootDev)
    ensures fs.Valid()
    ensures r == Resolve(old(fs.inodes), fs.supers, fs.blocks, t, suser, iget, path)
    ensures fs.inodes == if r == NONE then old(fs.inodes)
                         else if BaseStart(path) < |path| then Touched(Hold(old(fs.inodes), r), r, now)
                         else Hold(old(fs.inodes), r)
  {
    var s';
    r, s' := NameiIn(fs.inodes, fs.supers, fs.blocks, t, suser, iget, path, now);
    if r != NONE {
      TouchKeepsRecords(fs, fs.inodes, r, now);
    }
    fs.inodes := s';
  }
}
