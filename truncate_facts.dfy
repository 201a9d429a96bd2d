/*
 * What fs/truncate.c releases: the zones `truncate` hands to
 * `free_block` are exactly the zones the inode reaches — its non-zero
 * direct pointers, its index blocks and their non-zero entries — so
 * every block `bmap` maps is released, and one without a cached copy
 * ends with its bit clear in the zone bitmap.
 */
module TruncateFacts {
  import opened Layout
  import opened Tables
  import opened Alloc
  import opened Bmap
  import opened Truncate

  /** `t` calls `free_block` on zone `y`. */
  predicate Frees(t: Trace, y: int)
    decreases t
  {
    match t
    case Done => false
    case Then(e, rest) => e == Freed(y) || Frees(rest, y)
  }

  lemma {:induction false} FreesCat(a: Trace, b: Trace, y: int)
    ensures Frees(Cat(a, b), y) <==> Frees(a, y) || Frees(b, y)
    decreases a
  {
    match a
    case Done =>
    case Then(e, rest) => FreesCat(rest, b, y);
  }

  // ---------------------------------------------------------------------
  // What each part of the trace reaches
  // ---------------------------------------------------------------------

  /** Some entry `k..511` of index block data `d` is `y`. */
  ghost predicate InEntries(d: seq<byte>, k: nat, y: int)
    requires |d| == BLOCK_SIZE
  {
    exists m :: k <= m < NR_INDIRECT && IndexEntry(d, m) == y
  }

  /** `y` is index block `z` itself or a non-zero entry of it. */
  ghost predicate IndReaches(blocks: map<(int, int), Block>, dev: int, z: int, y: int)
    requires BlocksOk(blocks)
  {
    z != 0 && (y == z || (y != 0 && exists k :: 0 <= k < NR_INDIRECT && Entry(blocks, dev, z, k) == y))
  }

  /** `y` is reached from one of entries `k..511` of double-indirect block data `d`. */
  ghost predicate IndsReach(blocks: map<(int, int), Block>, dev: int, d: seq<byte>, k: nat, y: int)
    requires BlocksOk(blocks) && |d| == BLOCK_SIZE
  {
    exists m :: k <= m < NR_INDIRECT && IndReaches(blocks, dev, IndexEntry(d, m), y)
  }

  /** `y` is double-indirect block `z` itself or reached from one of its entries. */
  ghost predicate DindReaches(blocks: map<(int, int), Block>, dev: int, z: int, y: int)
    requires BlocksOk(blocks)
  {
    z != 0 && (y == z || ((dev, z) in blocks && IndsReach(blocks, dev, blocks[(dev, z)].data, 0, y)))
  }

  /** `y` is one of the non-zero direct pointers `k..6` of `zone`. */
  ghost predicate DirectReaches(zone: seq<u16>, k: nat, y: int)
    requires |zone| == 9
  {
    y != 0 && exists m :: k <= m < NR_DIRECT && zone[m] == y
  }

  /** Every zone an inode with pointers `zone` reaches. */
  ghost predicate Reaches(zone: seq<u16>, blocks: map<(int, int), Block>, dev: int, y: int)
    requires |zone| == 9 && BlocksOk(blocks)
  {
    DirectReaches(zone, 0, y) || IndReaches(blocks, dev, zone[7], y) || DindReaches(blocks, dev, zone[8], y)
  }

  // ---------------------------------------------------------------------
  // The trace frees exactly what the inode reaches
  // ---------------------------------------------------------------------

  lemma {:induction false} EntryFreesExactly(d: seq<byte>, k: nat, y: int)
    requires |d| == BLOCK_SIZE && k <= NR_INDIRECT
    ensures Frees(EntryFrees(d, k), y) <==> y != 0 && InEntries(d, k, y)
    decreases NR_INDIRECT - k
  {
    if k < NR_INDIRECT {
      EntryFreesExactly(d, k + 1, y);
      if IndexEntry(d, k) == y {
        assert InEntries(d, k, y);
      }
      if InEntries(d, k, y) && IndexEntry(d, k) != y {
        var m :| k <= m < NR_INDIRECT && IndexEntry(d, m) == y;
        assert InEntries(d, k + 1, y);
      }
    }
  }

  lemma IndTraceExactly(blocks: map<(int, int), Block>, dev: int, z: int, y: int)
    requires BlocksOk(blocks)
    ensures Frees(IndTrace(blocks, dev, z), y) <==> IndReaches(blocks, dev, z, y)
  {
    if z != 0 {
      if (dev, z) in blocks {
        var d := blocks[(dev, z)].data;
        var m := EntryFrees(d, 0);
        var tail := Then(Brelse(z), Then(Freed(z), Done));
        assert Frees(Then(Freed(z), Done), y) <==> y == z;
        assert Frees(tail, y) <==> y == z;
        assert Frees(IndTrace(blocks, dev, z), y) <==> Frees(Cat(m, tail), y);
        FreesCat(m, tail, y);
        EntryFreesExactly(d, 0, y);
        assert forall k :: 0 <= k < NR_INDIRECT ==> Entry(blocks, dev, z, k) == IndexEntry(d, k);
      }
    }
  }

  lemma {:induction false} IndFreesExactly(blocks: map<(int, int), Block>, dev: int, d: seq<byte>, k: nat, y: int)
    requires BlocksOk(blocks) && |d| == BLOCK_SIZE && k <= NR_INDIRECT
    ensures Frees(IndFrees(blocks, dev, d, k), y) <==> IndsReach(blocks, dev, d, k, y)
    decreases NR_INDIRECT - k
  {
    if k < NR_INDIRECT {
      IndFreesExactly(blocks, dev, d, k + 1, y);
      FreesCat(IndTrace(blocks, dev, IndexEntry(d, k)), IndFrees(blocks, dev, d, k + 1), y);
      IndTraceExactly(blocks, dev, IndexEntry(d, k), y);
      if IndReaches(blocks, dev, IndexEntry(d, k), y) {
        assert IndsReach(blocks, dev, d, k, y);
      }
      if IndsReach(blocks, dev, d, k, y) && !IndReaches(blocks, dev, IndexEntry(d, k), y) {
        var m :| k <= m < NR_INDIRECT && IndReaches(blocks, dev, IndexEntry(d, m), y);
        assert IndsReach(blocks, dev, d, k + 1, y);
      }
    }
  }

  lemma DindTraceExactly(blocks: map<(int, int), Block>, dev: int, z: int, y: int)
    requires BlocksOk(blocks)
    ensures Frees(DindTrace(blocks, dev, z), y) <==> DindReaches(blocks, dev, z, y)
  {
    if z != 0 && (dev, z) in blocks {
      var d := blocks[(dev, z)].data;
      var m, tail := IndFrees(blocks, dev, d, 0), Then(Brelse(z), Then(Freed(z), Done));
      assert Frees(Then(Freed(z), Done), y) <==> y == z;
      assert Frees(tail, y) <==> y == z;
      assert Frees(DindTrace(blocks, dev, z), y) <==> Frees(Cat(m, tail), y);
      FreesCat(m, tail, y);
      IndFreesExactly(blocks, dev, d, 0, y);
    }
  }

  lemma {:induction false} DirectFreesExactly(zone: seq<u16>, k: nat, y: int)
    requires |zone| == 9 && k <= NR_DIRECT
    ensures Frees(DirectFrees(zone, k), y) <==> DirectReaches(zone, k, y)
    decreases NR_DIRECT - k
  {
    if k < NR_DIRECT {
      DirectFreesExactly(zone, k + 1, y);
      if zone[k] == y && y != 0 {
        assert DirectReaches(zone, k, y);
      }
      if DirectReaches(zone, k, y) && zone[k] != y {
        var m :| k <= m < NR_DIRECT && zone[m] == y;
        assert DirectReaches(zone, k + 1, y);
      }
    }
  }

  /** `truncate` calls `free_block` on zone `y` if and only if the inode reaches `y`. */
  lemma TruncFreesExactly(zone: seq<u16>, blocks: map<(int, int), Block>, dev: int, y: int)
    requires |zone| == 9 && BlocksOk(blocks)
    ensures Frees(TruncTrace(zone, blocks, dev), y) <==> Reaches(zone, blocks, dev, y)
  {
    var ind, dind := IndTrace(blocks, dev, zone[7]), DindTrace(blocks, dev, zone[8]);
    FreesCat(DirectFrees(zone, 0), Cat(ind, dind), y);
    FreesCat(ind, dind, y);
    DirectFreesExactly(zone, 0, y);
    IndTraceExactly(blocks, dev, zone[7], y);
    DindTraceExactly(blocks, dev, zone[8], y);
  }

  /** Every zone `bmap` maps for the file is reached, so `truncate` frees it. */
  lemma MappedReached(zone: seq<u16>, blocks: map<(int, int), Block>, dev: int, block: nat)
    requires |zone| == 9 && BlocksOk(blocks) && block < MAX_FILE_BLOCKS
    requires Lookup(zone, blocks, dev, block) != 0
    ensures Reaches(zone, blocks, dev, Lookup(zone, blocks, dev, block))
    ensures Frees(TruncTrace(zone, blocks, dev), Lookup(zone, blocks, dev, block))
  {
    var y := Lookup(zone, blocks, dev, block);
    TruncFreesExactly(zone, blocks, dev, y);
    match PathOf(block)
    case Direct(k) =>
      assert DirectReaches(zone, 0, y);
    case Single(k) =>
      assert IndReaches(blocks, dev, zone[7], y);
    case Double(hi, lo) =>
      var m := Entry(blocks, dev, zone[8], hi);
      assert IndReaches(blocks, dev, m, y);
      assert IndsReach(blocks, dev, blocks[(dev, zone[8])].data, 0, y);
  }

  // ---------------------------------------------------------------------
  // Freed zones stay free
  // ---------------------------------------------------------------------

  /** No event of a run sets a zone bit that was clear. */
  lemma {:induction false} RunKeepsFree(st: Store, dev: int, t: Trace, y: int)
    requires Runs(st, dev, t) && !Allocated(st.supers, dev, y)
    ensures !Allocated(Run(st, dev, t).supers, dev, y)
    decreases t
  {
    match t
    case Done =>
    case Then(e, rest) =>
      RunKeepsFree(Truncate.Step(st, dev, e), dev, rest, y);
  }

  /** A zone a run frees that has no cached copy ends with its bit clear. */
  lemma {:induction false} RunReleases(st: Store, dev: int, t: Trace, y: int)
    requires Runs(st, dev, t) && Frees(t, y) && (dev, y) !in st.blocks
    ensures !Allocated(Run(st, dev, t).supers, dev, y)
    decreases t
  {
    match t
    case Then(e, rest) =>
      var st' := Truncate.Step(st, dev, e);
      if e == Freed(y) {
        RunKeepsFree(st', dev, rest, y);
      } else {
        RunReleases(st', dev, rest, y);
      }
  }

  /**
   * After `truncate`, every zone the file mapped that has no cached copy
   * is free in the zone bitmap.
   */
  lemma TruncReleasesMapped(st: Store, zone: seq<u16>, dev: int, block: nat)
    requires |zone| == 9 && BlocksOk(st.blocks) && block < MAX_FILE_BLOCKS
    requires Runs(st, dev, TruncTrace(zone, st.blocks, dev))
    requires Lookup(zone, st.blocks, dev, block) != 0 && (dev, Lookup(zone, st.blocks, dev, block)) !in st.blocks
    ensures !Allocated(Run(st, dev, TruncTrace(zone, st.blocks, dev)).supers, dev, Lookup(zone, st.blocks, dev, block))
  {
    MappedReached(zone, st.blocks, dev, block);
    RunReleases(st, dev, TruncTrace(zone, st.blocks, dev), Lookup(zone, st.blocks, dev, block));
  }
}
