/*
 * fs/truncate.c: `truncate` releases every zone of a regular file or
 * directory — the direct zones, then the tree under the indirect block
 * (`free_ind`), then the tree under the double-indirect block
 * (`free_dind`) — and empties the inode.
 *
 * What truncation does to the tables is specified as a trace of events:
 * each `free_block` call and each `bread`/`brelse` of an index block, in
 * the order the source makes them. `Run` plays a trace on the
 * superblocks and blocks; the methods are proved to leave exactly the
 * state `Run` gives for the trace of the inode they truncate.
 */
module Truncate {
  import opened Layout
  import opened Records
  import opened Tables
  import opened Alloc
  import opened Bmap

  /** The part of the file system truncation changes. */
  datatype Store = Store(supers: seq<Super>, blocks: map<(int, int), Block>)

  /** One step of a truncation on the device being truncated. */
  datatype Event =
    | Freed(z: int)   // free_block(dev, z)
    | Bread(z: int)   // bread(dev, z) of a readable index block: one more holder
    | Brelse(z: int)  // brelse of that buffer: one holder less

  /** `free_block(dev, z)` does not halt: the device is mounted, `z` is a data zone, and its bit is set unless the block is held. */
  ghost predicate CanFree(st: Store, dev: int, z: int)
  {
    var sb := SuperOf(st.supers, dev);
    sb != NONE && st.supers[sb].Valid() &&
    st.supers[sb].d.firstDataZone <= z < st.supers[sb].d.nzones &&
    (HeldElsewhere(st.blocks, dev, z) || ZoneAllocated(st.supers[sb], z))
  }

  /**
   * `free_block(dev, z)` on values: a held block is refused, keeping
   * the reference `get_hash_table` took on it; otherwise its bit is
   * released and its cached copy is no longer dirty.
   */
  ghost function FreeIn(st: Store, dev: int, z: int): (r: Store)
    requires CanFree(st, dev, z)
    ensures SuperOf(r.supers, dev) == SuperOf(st.supers, dev)
    ensures r.blocks.Keys == st.blocks.Keys
    ensures forall key :: key in st.blocks && key != (dev, z) ==> r.blocks[key] == st.blocks[key]
    ensures HeldElsewhere(st.blocks, dev, z) ==>
              r.supers == st.supers &&
              r.blocks[(dev, z)] == st.blocks[(dev, z)].(count := st.blocks[(dev, z)].count + 1)
    ensures !HeldElsewhere(st.blocks, dev, z) && (dev, z) in st.blocks ==>
              r.blocks[(dev, z)] == st.blocks[(dev, z)].(dirt := false)
    ensures !HeldElsewhere(st.blocks, dev, z) ==> !Allocated(r.supers, dev, z)
    ensures forall y :: Allocated(r.supers, dev, y) ==> Allocated(st.supers, dev, y)
  {
    var sb := SuperOf(st.supers, dev);
    var key := (dev, z);
    if HeldElsewhere(st.blocks, dev, z) then
      st.(blocks := st.blocks[key := st.blocks[key].(count := st.blocks[key].count + 1)])
    else
      ReleaseLoses(st.supers[sb], z);
      SuperOfKept(st.supers, sb, ReleasedZone(st.supers[sb], z), dev);
      Store(st.supers[sb := ReleasedZone(st.supers[sb], z)],
            if key in st.blocks then st.blocks[key := st.blocks[key].(dirt := false)] else st.blocks)
  }

  ghost predicate Ok(st: Store, dev: int, e: Event)
  {
    e.Freed? ==> CanFree(st, dev, e.z)
  }

  /** `b'` holds the same blocks as `b`, with the same contents. */
  ghost predicate SameData(b: map<(int, int), Block>, b': map<(int, int), Block>)
  {
    b'.Keys == b.Keys && forall key :: key in b ==> b'[key].data == b[key].data
  }

  /** One event on the store. */
  ghost function Step(st: Store, dev: int, e: Event): (r: Store)
    requires Ok(st, dev, e)
    ensures SameData(st.blocks, r.blocks) && SuperOf(r.supers, dev) == SuperOf(st.supers, dev)
  {
    var key := (dev, e.z);
    match e
    case Freed(z) => FreeIn(st, dev, z)
    case Bread(z) =>
      if key in st.blocks then st.(blocks := st.blocks[key := st.blocks[key].(count := st.blocks[key].count + 1)])
      else st
    case Brelse(z) =>
      if key in st.blocks && st.blocks[key].count > 0
      then st.(blocks := st.blocks[key := st.blocks[key].(count := st.blocks[key].count - 1)])
      else st
  }

  /** Events in the order they happen. */
  datatype Trace = Done | Then(e: Event, rest: Trace)

  /** `a`, then `b`. */
  function Cat(a: Trace, b: Trace): (r: Trace)
    ensures a == Done ==> r == b
  {
    match a
    case Done => b
    case Then(e, rest) => Then(e, Cat(rest, b))
  }

  /** Every event of `t` can happen in turn: no `free_block` on the way halts. */
  ghost predicate Runs(st: Store, dev: int, t: Trace)
    decreases t
  {
    match t
    case Done => true
    case Then(e, rest) => Ok(st, dev, e) && Runs(Step(st, dev, e), dev, rest)
  }

  /** The store after the events of `t`. */
  ghost function Run(st: Store, dev: int, t: Trace): (r: Store)
    requires Runs(st, dev, t)
    ensures SameData(st.blocks, r.blocks) && SuperOf(r.supers, dev) == SuperOf(st.supers, dev)
    decreases t
  {
    match t
    case Done => st
    case Then(e, rest) => Run(Step(st, dev, e), dev, rest)
  }

  /** Running `Cat(a, b)` is running `a`, then `b`. */
  lemma {:induction false} RunCat(st: Store, dev: int, a: Trace, b: Trace)
    ensures Runs(st, dev, Cat(a, b)) == (Runs(st, dev, a) && Runs(Run(st, dev, a), dev, b))
    ensures Runs(st, dev, Cat(a, b)) ==> Run(st, dev, Cat(a, b)) == Run(Run(st, dev, a), dev, b)
    decreases a
  {
    match a
    case Done =>
    case Then(e, rest) =>
      if Ok(st, dev, e) {
        RunCat(Step(st, dev, e), dev, rest, b);
      }
  }

  /** A run touches only zone bitmaps: every superblock keeps its record, device and inode bitmap. */
  lemma {:induction false} RunKeepsInodeMaps(st: Store, dev: int, t: Trace)
    requires Runs(st, dev, t)
    ensures var r := Run(st, dev, t);
            |r.supers| == |st.supers| &&
            forall k :: 0 <= k < |st.supers| ==>
              r.supers[k].d == st.supers[k].d && r.supers[k].inodeMap == st.supers[k].inodeMap &&
              r.supers[k].dev == st.supers[k].dev && (st.supers[k].Valid() ==> r.supers[k].Valid())
    decreases t
  {
    match t
    case Done =>
    case Then(e, rest) =>
      StepKeepsInodeMaps(st, dev, e);
      RunKeepsInodeMaps(Step(st, dev, e), dev, rest);
  }

  /** One event touches only a zone bitmap. */
  lemma StepKeepsInodeMaps(st: Store, dev: int, e: Event)
    requires Ok(st, dev, e)
    ensures var r := Step(st, dev, e);
            |r.supers| == |st.supers| &&
            forall k :: 0 <= k < |st.supers| ==>
              r.supers[k].d == st.supers[k].d && r.supers[k].inodeMap == st.supers[k].inodeMap &&
              r.supers[k].dev == st.supers[k].dev && (st.supers[k].Valid() ==> r.supers[k].Valid())
  {
  }

  // ---------------------------------------------------------------------
  // The traces of free_ind, free_dind and truncate
  // ---------------------------------------------------------------------

  /** The `free_block` calls of the loop over entries `k..511` of the index block data `d`. */
  function EntryFrees(d: seq<byte>, k: nat): (r: Trace)
    requires |d| == BLOCK_SIZE && k <= NR_INDIRECT
    decreases NR_INDIRECT - k
  {
    if k == NR_INDIRECT then Done
    else if IndexEntry(d, k) != 0 then Then(Freed(IndexEntry(d, k)), EntryFrees(d, k + 1))
    else EntryFrees(d, k + 1)
  }

  /** `bread` of index block `z`, the events of `m`, `brelse`, and `free_block(dev, z)`. */
  function Held(z: int, m: Trace): (r: Trace)
  {
    Then(Bread(z), Cat(m, Then(Brelse(z), Then(Freed(z), Done))))
  }

  /**
   * `free_ind(dev, z)`: nothing for block 0; a readable block is held
   * while its non-zero entries are freed, then released; the block is
   * freed last, readable or not.
   */
  function IndTrace(blocks: map<(int, int), Block>, dev: int, z: int): (t: Trace)
    requires BlocksOk(blocks)
    ensures z == 0 <==> t == Done
    ensures z != 0 && (dev, z) !in blocks ==> t == Then(Freed(z), Done)
  {
    if z == 0 then Done
    else if (dev, z) in blocks then Held(z, EntryFrees(blocks[(dev, z)].data, 0))
    else Then(Freed(z), Done)
  }

  /** The `free_ind` calls of the loop over entries `k..511` of the double-indirect block data `d`. */
  function IndFrees(blocks: map<(int, int), Block>, dev: int, d: seq<byte>, k: nat): (r: Trace)
    requires BlocksOk(blocks) && |d| == BLOCK_SIZE && k <= NR_INDIRECT
    decreases NR_INDIRECT - k
  {
    if k == NR_INDIRECT then Done
    else Cat(IndTrace(blocks, dev, IndexEntry(d, k)), IndFrees(blocks, dev, d, k + 1))
  }

  /** `free_dind(dev, z)`: as `free_ind`, with `free_ind` of each non-zero entry. */
  function DindTrace(blocks: map<(int, int), Block>, dev: int, z: int): (t: Trace)
    requires BlocksOk(blocks)
    ensures z == 0 <==> t == Done
    ensures z != 0 && (dev, z) !in blocks ==> t == Then(Freed(z), Done)
  {
    if z == 0 then Done
    else if (dev, z) in blocks then Held(z, IndFrees(blocks, dev, blocks[(dev, z)].data, 0))
    else Then(Freed(z), Done)
  }

  /** The `free_block` calls of the loop over direct zones `k..6`. */
  function DirectFrees(zone: seq<u16>, k: nat): (r: Trace)
    requires |zone| == 9 && k <= NR_DIRECT
    decreases NR_DIRECT - k
  {
    if k == NR_DIRECT then Done
    else if zone[k] != 0 then Then(Freed(zone[k]), DirectFrees(zone, k + 1))
    else DirectFrees(zone, k + 1)
  }

  /** Everything `truncate` does to the tables for an inode with zone pointers `zone`. */
  function TruncTrace(zone: seq<u16>, blocks: map<(int, int), Block>, dev: int): (r: Trace)
    requires |zone| == 9 && BlocksOk(blocks)
  {
    Cat(DirectFrees(zone, 0), Cat(IndTrace(blocks, dev, zone[7]), DindTrace(blocks, dev, zone[8])))
  }

  // ---------------------------------------------------------------------
  // The procedures
  // ---------------------------------------------------------------------

  /** The store of `fs`. */
  function StoreOf(fs: FileSystem): (r: Store)
    reads fs
  {
    Store(fs.supers, fs.blocks)
  }

  /** `free_block(dev, z)`, `bread(dev, z)` or `brelse` of that buffer, as event `e` says. */
  method Perform(fs: FileSystem, dev: int, e: Event)
    requires fs.Valid() && Ok(StoreOf(fs), dev, e)
    modifies fs
    ensures fs.Valid()
    ensures StoreOf(fs) == Step(old(StoreOf(fs)), dev, e)
    ensures fs.inodes == old(fs.inodes) && fs.lastInode == old(fs.lastInode)
    ensures fs.files == old(fs.files) && fs.rootDev == old(fs.rootDev)
  {
    var key := (dev, e.z);
    match e
    case Freed(z) =>
      var _ := FreeBlock(fs, dev, z);
    case Bread(z) =>
      if key in fs.blocks {
        fs.blocks := fs.blocks[key := fs.blocks[key].(count := fs.blocks[key].count + 1)];
      }
    case Brelse(z) =>
      if key in fs.blocks && fs.blocks[key].count > 0 {
        fs.blocks := fs.blocks[key := fs.blocks[key].(count := fs.blocks[key].count - 1)];
      }
  }

  /** The loop of `free_ind` over the entries of index block data `d`, as `EntryFrees` states it. */
  method FreeEntries(fs: FileSystem, dev: int, d: seq<byte>)
    requires fs.Valid() && |d| == BLOCK_SIZE && Runs(StoreOf(fs), dev, EntryFrees(d, 0))
    modifies fs
    ensures fs.Valid()
    ensures StoreOf(fs) == Run(old(StoreOf(fs)), dev, EntryFrees(d, 0))
    ensures fs.inodes == old(fs.inodes) && fs.lastInode == old(fs.lastInode)
    ensures fs.files == old(fs.files) && fs.rootDev == old(fs.rootDev)
  {
    ghost var goal := Run(StoreOf(fs), dev, EntryFrees(d, 0));
    var k := 0;
    while k < NR_INDIRECT
      invariant k <= NR_INDIRECT && fs.Valid()
      invariant Runs(StoreOf(fs), dev, EntryFrees(d, k)) && Run(StoreOf(fs), dev, EntryFrees(d, k)) == goal
      invariant fs.inodes == old(fs.inodes) && fs.lastInode == old(fs.lastInode)
      invariant fs.files == old(fs.files) && fs.rootDev == old(fs.rootDev)
    {
      FreeEntryAt(fs, dev, d, k);
      k := k + 1;
    }
  }

  /** One pass of `free_ind`'s loop: entry `k` of `d`, when set, is given to `free_block`. */
  method FreeEntryAt(fs: FileSystem, dev: int, d: seq<byte>, k: nat)
    requires fs.Valid() && |d| == BLOCK_SIZE && k < NR_INDIRECT && Runs(StoreOf(fs), dev, EntryFrees(d, k))
    modifies fs
    ensures fs.Valid() && Runs(StoreOf(fs), dev, EntryFrees(d, k + 1))
    ensures Run(StoreOf(fs), dev, EntryFrees(d, k + 1)) == Run(old(StoreOf(fs)), dev, EntryFrees(d, k))
    ensures fs.inodes == old(fs.inodes) && fs.lastInode == old(fs.lastInode)
    ensures fs.files == old(fs.files) && fs.rootDev == old(fs.rootDev)
  {
    var e := IndexEntry(d, k);
    if e != 0 {
      Perform(fs, dev, Freed(e));
    }
  }

  /** Running `Held(z, m)` is a `bread`, then `m`, then a `brelse` and a `free_block`. */
  lemma RunHeld(st: Store, dev: int, z: int, m: Trace)
    requires Runs(st, dev, Held(z, m))
    ensures Runs(Step(st, dev, Bread(z)), dev, m)
    ensures var s1 := Run(Step(st, dev, Bread(z)), dev, m);
            Ok(s1, dev, Brelse(z)) && Ok(Step(s1, dev, Brelse(z)), dev, Freed(z)) &&
            Run(st, dev, Held(z, m)) == Step(Step(s1, dev, Brelse(z)), dev, Freed(z))
  {
    var s0 := Step(st, dev, Bread(z));
    RunCat(s0, dev, m, Then(Brelse(z), Then(Freed(z), Done)));
    var s1 := Run(s0, dev, m);
    var s2 := Step(s1, dev, Brelse(z));
    assert Run(st, dev, Held(z, m)) == Run(s0, dev, Cat(m, Then(Brelse(z), Then(Freed(z), Done))));
    assert Run(s1, dev, Then(Brelse(z), Then(Freed(z), Done))) == Run(s2, dev, Then(Freed(z), Done));
    assert Run(s2, dev, Then(Freed(z), Done)) == Run(Step(s2, dev, Freed(z)), dev, Done);
  }

  /** `free_ind(dev, z)`, as `IndTrace` states it. */
  method FreeInd(fs: FileSystem, dev: int, z: int)
    requires fs.Valid() && Runs(StoreOf(fs), dev, IndTrace(fs.blocks, dev, z))
    modifies fs
    ensures fs.Valid()
    ensures StoreOf(fs) == Run(old(StoreOf(fs)), dev, IndTrace(old(fs.blocks), dev, z))
    ensures fs.inodes == old(fs.inodes) && fs.lastInode == old(fs.lastInode)
    ensures fs.files == old(fs.files) && fs.rootDev == old(fs.rootDev)
  {
    if z == 0 {
      return;
    }
    var key := (dev, z);
    if key in fs.blocks {
      var d := fs.blocks[key].data;
      RunHeld(StoreOf(fs), dev, z, EntryFrees(d, 0));
      Perform(fs, dev, Bread(z));
      FreeEntries(fs, dev, d);
      Perform(fs, dev, Brelse(z));
      Perform(fs, dev, Freed(z));
    } else {
      Perform(fs, dev, Freed(z));
    }
  }

  /** The loop of `free_dind` at entry `k`: `free_ind` of the entry, on blocks that still hold what they held. */
  lemma IndFreesStep(st: Store, dev: int, b0: map<(int, int), Block>, d: seq<byte>, k: nat)
    requires BlocksOk(b0) && SameData(b0, st.blocks) && |d| == BLOCK_SIZE && k < NR_INDIRECT
    requires Runs(st, dev, IndFrees(b0, dev, d, k))
    ensures BlocksOk(st.blocks)
    ensures var t := IndTrace(st.blocks, dev, IndexEntry(d, k));
            Runs(st, dev, t) &&
            var st' := Run(st, dev, t);
            (IndexEntry(d, k) == 0 ==> st' == st) &&
            SameData(b0, st'.blocks) &&
            Runs(st', dev, IndFrees(b0, dev, d, k + 1)) &&
            Run(st', dev, IndFrees(b0, dev, d, k + 1)) == Run(st, dev, IndFrees(b0, dev, d, k))
  {
    var t := IndTrace(b0, dev, IndexEntry(d, k));
    assert IndTrace(st.blocks, dev, IndexEntry(d, k)) == t;
    RunCat(st, dev, t, IndFrees(b0, dev, d, k + 1));
  }

  /**
   * The loop of `free_dind` over the entries of double-indirect block
   * data `d`, as `IndFrees` states it for blocks `b0` that hold what the
   * blocks of `fs` hold.
   */
  method FreeIndirects(fs: FileSystem, dev: int, d: seq<byte>, ghost b0: map<(int, int), Block>)
    requires fs.Valid() && |d| == BLOCK_SIZE && BlocksOk(b0) && SameData(b0, fs.blocks)
    requires Runs(StoreOf(fs), dev, IndFrees(b0, dev, d, 0))
    modifies fs
    ensures fs.Valid()
    ensures StoreOf(fs) == Run(old(StoreOf(fs)), dev, IndFrees(b0, dev, d, 0))
    ensures fs.inodes == old(fs.inodes) && fs.lastInode == old(fs.lastInode)
    ensures fs.files == old(fs.files) && fs.rootDev == old(fs.rootDev)
  {
    ghost var goal := Run(StoreOf(fs), dev, IndFrees(b0, dev, d, 0));
    var k := 0;
    while k < NR_INDIRECT
      invariant k <= NR_INDIRECT && fs.Valid() && SameData(b0, fs.blocks)
      invariant Runs(StoreOf(fs), dev, IndFrees(b0, dev, d, k)) && Run(StoreOf(fs), dev, IndFrees(b0, dev, d, k)) == goal
      invariant fs.inodes == old(fs.inodes) && fs.lastInode == old(fs.lastInode)
      invariant fs.files == old(fs.files) && fs.rootDev == old(fs.rootDev)
    {
      FreeIndAt(fs, dev, d, b0, k);
      k := k + 1;
    }
  }

  /** One pass of `free_dind`'s loop: entry `k` of `d`, when set, is freed with `free_ind`. */
  method FreeIndAt(fs: FileSystem, dev: int, d: seq<byte>, ghost b0: map<(int, int), Block>, k: nat)
    requires fs.Valid() && |d| == BLOCK_SIZE && BlocksOk(b0) && SameData(b0, fs.blocks) && k < NR_INDIRECT
    requires Runs(StoreOf(fs), dev, IndFrees(b0, dev, d, k))
    modifies fs
    ensures fs.Valid() && SameData(b0, fs.blocks)
    ensures Runs(StoreOf(fs), dev, IndFrees(b0, dev, d, k + 1))
    ensures Run(StoreOf(fs), dev, IndFrees(b0, dev, d, k + 1)) == Run(old(StoreOf(fs)), dev, IndFrees(b0, dev, d, k))
    ensures fs.inodes == old(fs.inodes) && fs.lastInode == old(fs.lastInode)
    ensures fs.files == old(fs.files) && fs.rootDev == old(fs.rootDev)
  {
    var e := IndexEntry(d, k);
    IndFreesStep(StoreOf(fs), dev, b0, d, k);
    if e != 0 {
      FreeInd(fs, dev, e);
    }
  }

  /**
   * `free_dind(dev, z)`, as `DindTrace` states it for blocks `b0` that
   * hold what the blocks of `fs` hold.
   */
  method FreeDind(fs: FileSystem, dev: int, z: int, ghost b0: map<(int, int), Block>)
    requires fs.Valid() && BlocksOk(b0) && SameData(b0, fs.blocks)
    requires Runs(StoreOf(fs), dev, DindTrace(b0, dev, z))
    modifies fs
    ensures fs.Valid()
    ensures StoreOf(fs) == Run(old(StoreOf(fs)), dev, DindTrace(b0, dev, z))
    ensures fs.inodes == old(fs.inodes) && fs.lastInode == old(fs.lastInode)
    ensures fs.files == old(fs.files) && fs.rootDev == old(fs.rootDev)
  {
    if z == 0 {
      return;
    }
    var key := (dev, z);
    if key in fs.blocks {
      var d := fs.blocks[key].data;
      RunHeld(StoreOf(fs), dev, z, IndFrees(b0, dev, d, 0));
      Perform(fs, dev, Bread(z));
      FreeIndirects(fs, dev, d, b0);
      Perform(fs, dev, Brelse(z));
      Perform(fs, dev, Freed(z));
    } else {
      Perform(fs, dev, Freed(z));
    }
  }

  /** Does `truncate` act on an inode of mode `mode`? Only on regular files and directories. */
  predicate Truncatable(mode: int)
  {
    IsReg(mode) || IsDir(mode)
  }

  /** Inode `i` once `truncate` has emptied it at time `now`. */
  function Emptied(i: MInode, now: u32): (r: MInode)
    requires i.Valid()
    ensures r.Valid() && r.d.size == 0 && r.d.mtime == now && r.ctime == now && r.dirt
    ensures forall k :: 0 <= k < 9 ==> r.d.zone[k] == 0
  {
    i.(d := i.d.(zone := [0, 0, 0, 0, 0, 0, 0, 0, 0], size := 0, mtime := now), ctime := now, dirt := true)
  }

  /**
   * The loop of `truncate` over the direct pointers `zone` of an inode
   * on `dev`: each non-zero one is freed, as `DirectFrees` states it.
   */
  method FreeDirect(fs: FileSystem, dev: int, zone: seq<u16>)
    requires fs.Valid() && |zone| == 9 && Runs(StoreOf(fs), dev, DirectFrees(zone, 0))
    modifies fs
    ensures fs.Valid()
    ensures StoreOf(fs) == Run(old(StoreOf(fs)), dev, DirectFrees(zone, 0))
    ensures fs.inodes == old(fs.inodes) && fs.lastInode == old(fs.lastInode)
    ensures fs.files == old(fs.files) && fs.rootDev == old(fs.rootDev)
  {
    ghost var goal := Run(StoreOf(fs), dev, DirectFrees(zone, 0));
    var k := 0;
    while k < NR_DIRECT
      invariant k <= NR_DIRECT && fs.Valid()
      invariant Runs(StoreOf(fs), dev, DirectFrees(zone, k)) && Run(StoreOf(fs), dev, DirectFrees(zone, k)) == goal
      invariant fs.inodes == old(fs.inodes) && fs.lastInode == old(fs.lastInode)
      invariant fs.files == old(fs.files) && fs.rootDev == old(fs.rootDev)
    {
      if zone[k] != 0 {
        Perform(fs, dev, Freed(zone[k]));
      }
      k := k + 1;
    }
  }

  /** The three loops of `truncate` over the zone pointers `zone` of an inode on `dev`, as `TruncTrace` states them. */
  method FreeZones(fs: FileSystem, dev: int, zone: seq<u16>)
    requires fs.Valid() && |zone| == 9 && Runs(StoreOf(fs), dev, TruncTrace(zone, fs.blocks, dev))
    modifies fs
    ensures fs.Valid()
    ensures StoreOf(fs) == Run(old(StoreOf(fs)), dev, TruncTrace(zone, old(fs.blocks), dev))
    ensures fs.inodes == old(fs.inodes) && fs.lastInode == old(fs.lastInode)
    ensures fs.files == old(fs.files) && fs.rootDev == old(fs.rootDev)
  {
    ghost var b0 := fs.blocks;
    ghost var ind, dind := IndTrace(b0, dev, zone[7]), DindTrace(b0, dev, zone[8]);
    RunCat(StoreOf(fs), dev, DirectFrees(zone, 0), Cat(ind, dind));
    FreeDirect(fs, dev, zone);
    RunCat(StoreOf(fs), dev, ind, dind);
    assert IndTrace(fs.blocks, dev, zone[7]) == ind;
    FreeInd(fs, dev, zone[7]);
    FreeDind(fs, dev, zone[8], b0);
  }

  /**
   * `truncate(inode)` on slot `x` at time `now`: nothing for an inode
   * that is neither a regular file nor a directory; otherwise the tables
   * end as the trace of its zones leaves them and the inode is emptied.
   */
  method Truncate(fs: FileSystem, x: nat, now: u32)
    requires fs.Valid() && x < NR_INODE
    requires var i := fs.inodes[x];
             Truncatable(i.d.mode) ==> i.dev != 0 && Runs(StoreOf(fs), i.dev, TruncTrace(i.d.zone, fs.blocks, i.dev))
    modifies fs
    ensures fs.Valid()
    ensures fs.lastInode == old(fs.lastInode) && fs.files == old(fs.files) && fs.rootDev == old(fs.rootDev)
    ensures var i := old(fs.inodes[x]);
            !Truncatable(i.d.mode) ==> fs.inodes == old(fs.inodes) && StoreOf(fs) == old(StoreOf(fs))
    ensures var i := old(fs.inodes[x]);
            Truncatable(i.d.mode) ==>
              StoreOf(fs) == Run(old(StoreOf(fs)), i.dev, TruncTrace(i.d.zone, old(fs.blocks), i.dev)) &&
              fs.inodes == old(fs.inodes)[x := Emptied(i, now)]
  {
    var i := fs.inodes[x];
    if !Truncatable(i.d.mode) {
      return;
    }
    FreeZones(fs, i.dev, i.d.zone);
    fs.inodes := fs.inodes[x := Emptied(i, now)];
  }
}
