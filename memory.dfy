/*
 * mm/memory.c: the page-frame reference counts `mem_map[]` and the
 * two-level page tables of 32-bit paging (section 4.3 of the Intel SDM,
 * volume 3A). Physical memory is a map from frame addresses to their
 * 1024 words; the page directory is the frame at address 0, as the
 * kernel sets it up. A page-table entry keeps the frame in bits 12-31,
 * Present in bit 0, Read/Write in bit 1 and Dirty in bit 6.
 */
module Memory {
  import opened Layout

  const LOW_MEM: int := 0x10_0000
  const PAGING_MEMORY: int := 15 * 1024 * 1024
  const PAGING_PAGES: int := PAGING_MEMORY / 4096
  const USED: int := 100
  /** The first address `mem_map[]` does not cover (16 MB). */
  const MEM_END: int := LOW_MEM + PAGING_MEMORY

  /**
   * A 32-bit word of physical memory: its bits 12-31 as a frame number
   * and its low 12 bits. As a page-directory or page-table entry, the
   * frame number says where the entry points, and the low bits hold the
   * flags.
   */
  datatype Word = Word(frame: nat, flags: bv12)

  const ZERO: Word := Word(0, 0)

  /** The value of an `unsigned long` that holds the frame address `a` (low bits 0). */
  function AddrWord(a: int): (w: Word)
    requires 0 <= a && a % 4096 == 0
    ensures PageOf(w) == a && w.flags == 0
  {
    Word(a / 4096, 0)
  }

  /** `MAP_NR(addr)`: the `mem_map[]` index of the frame holding `addr`. */
  function MapNr(addr: int): (r: int)
  {
    (addr - LOW_MEM) / 4096
  }

  // Entry bits

  predicate Present(e: Word) { e.flags & 1 != 0 }
  predicate Writable(e: Word) { e.flags & 2 != 0 }
  predicate Dirty(e: Word) { e.flags & 0x40 != 0 }

  /** `0xfffff000 & e`: the frame address in a word. */
  function PageOf(e: Word): (p: int)
    ensures 0 <= p && p % 4096 == 0
  {
    4096 * e.frame
  }

  /** `e & ~2`: the entry made read-only. */
  function ReadOnly(e: Word): (r: Word)
    ensures !Writable(r) && Present(r) == Present(e) && Dirty(r) == Dirty(e) && PageOf(r) == PageOf(e)
  {
    e.(flags := e.flags & !2)
  }

  /** `e | 2`: the entry made writable. */
  function MakeWritable(e: Word): (r: Word)
    ensures Writable(r) && Present(r) == Present(e) && Dirty(r) == Dirty(e) && PageOf(r) == PageOf(e)
  {
    e.(flags := e.flags | 2)
  }

  /** `e | 7`: the entry made present, writable and user-accessible. */
  function Or7(e: Word): (r: Word)
    ensures Present(r) && Writable(r) && Dirty(r) == Dirty(e) && PageOf(r) == PageOf(e)
  {
    e.(flags := e.flags | 7)
  }

  /** `e > LOW_MEM`, comparing the whole word. */
  predicate AboveLow(e: Word)
  {
    e.frame > LOW_MEM / 4096 || (e.frame == LOW_MEM / 4096 && e.flags != 0)
  }

  /** `(a >> 20) & 0xffc`: the byte offset of `a`'s entry in the page directory. */
  function DirOffset(a: u32): (d: int)
    ensures 0 <= d <= 0xffc && d % 4 == 0
  {
    4 * (a / 0x40_0000 % 1024)
  }

  /** `(a >> 10) & 0xffc`: the byte offset of `a`'s entry in its page table. */
  function TableOffset(a: u32): (d: int)
    ensures 0 <= d <= 0xffc && d % 4 == 0
  {
    4 * (a / 4096 % 1024)
  }

  // Physical memory, word by word, keyed by `address / 4`

  /** The word at byte address `a`; a word the model does not hold reads as zero. */
  function Read(ram: map<int, Word>, a: int): (r: Word)
  {
    if a / 4 in ram then ram[a / 4] else ZERO
  }

  /** Store `v` in the word at byte address `a`. */
  function Write(ram: map<int, Word>, a: int, v: Word): (r: map<int, Word>)
  {
    ram[a / 4 := v]
  }

  /** Two byte addresses fall in the same word. */
  predicate SameWord(a: int, b: int)
  {
    a / 4 == b / 4
  }

  /** A store changes the word it names and no other. */
  lemma ReadWrite(ram: map<int, Word>, a: int, v: Word, b: int)
    ensures Read(Write(ram, a, v), b) == if SameWord(a, b) then v else Read(ram, b)
  {
  }

  /** The frame at `f` zero-filled, as `get_free_page` leaves it. */
  function Zeroed(ram: map<int, Word>, f: int): (r: map<int, Word>)
  {
    map k | k in ram && k / 1024 != f / 4096 :: ram[k]
  }

  /**
   * `copy_page(from, to)` after `n` of its `movsl` steps: word `j < n` of
   * the frame at `to` holds word `j` of `src`'s frame at `from`, where
   * `src` is memory as it was when the copy began.
   */
  function PageCopy(ram: map<int, Word>, src: map<int, Word>, from: int, to: int, n: nat): (r: map<int, Word>)
  {
    if n == 0 then ram
    else Write(PageCopy(ram, src, from, to, n - 1), to + 4 * (n - 1), Read(src, from + 4 * (n - 1)))
  }

  /**
   * `copy_page(from, to)`: the 1024 words of the frame at `from` stored
   * over those of the frame at `to`; for two page frames, the frame at
   * `to` then reads as the frame at `from` did and nothing else changes.
   */
  function CopyPage(ram: map<int, Word>, from: int, to: int): (r: map<int, Word>)
    ensures from % 4096 == 0 && to % 4096 == 0 ==>
            forall a :: 0 <= a ==> Read(r, a) == if to <= a < to + 4096 then Read(ram, from + (a - to)) else Read(ram, a)
  {
    if from % 4096 == 0 && to % 4096 == 0 then
      PageCopied(ram, from, to);
      PageCopy(ram, ram, from, to, 1024)
    else PageCopy(ram, ram, from, to, 1024)
  }

  /** After `n` steps the first `n` words at `to` are those at `from` in `src`, and every other word is as before. */
  lemma {:induction false} ReadPageCopy(ram: map<int, Word>, src: map<int, Word>, from: int, to: int, n: nat, a: int)
    requires from % 4 == 0 && to % 4 == 0 && 0 <= a
    ensures Read(PageCopy(ram, src, from, to, n), a) ==
            if to <= a < to + 4 * n then Read(src, from + (a - to)) else Read(ram, a)
  {
    if n > 0 {
      ReadPageCopy(ram, src, from, to, n - 1, a);
      var b := to + 4 * (n - 1);
      ReadWrite(PageCopy(ram, src, from, to, n - 1), b, Read(src, from + 4 * (n - 1)), a);
      if SameWord(b, a) {
        assert b <= a < b + 4;
        assert (from + (a - to)) / 4 == (from + 4 * (n - 1)) / 4;
      } else {
        assert !(b <= a < b + 4);
      }
    }
  }

  /** The 1024 steps of `copy_page` over two page frames, at every address. */
  lemma PageCopied(ram: map<int, Word>, from: int, to: int)
    requires from % 4096 == 0 && to % 4096 == 0
    ensures forall a :: 0 <= a ==> Read(PageCopy(ram, ram, from, to, 1024), a) ==
                                    if to <= a < to + 4096 then Read(ram, from + (a - to)) else Read(ram, a)
  {
    var r := PageCopy(ram, ram, from, to, 1024);
    forall a | 0 <= a
      ensures Read(r, a) == if to <= a < to + 4096 then Read(ram, from + (a - to)) else Read(ram, a)
    {
      ReadPageCopy(ram, ram, from, to, 1024, a);
      if to <= a < to + 4096 {
        assert Read(r, a) == Read(ram, from + (a - to));
      } else {
        assert Read(r, a) == Read(ram, a);
      }
    }
  }

  /** After `copy_page` the frame at `to` reads as the frame at `from` did, and every other word is as before. */
  lemma {:induction false} ReadCopyPage(ram: map<int, Word>, from: int, to: int, a: int)
    requires from % 4096 == 0 && to % 4096 == 0 && 0 <= a
    ensures Read(CopyPage(ram, from, to), a) == if to <= a < to + 4096 then Read(ram, from + (a - to)) else Read(ram, a)
  {
    var r := PageCopy(ram, ram, from, to, 1024);
    ReadPageCopy(ram, ram, from, to, 1024, a);
    if to <= a < to + 4096 {
      assert Read(r, a) == Read(ram, from + (a - to));
    } else {
      assert Read(r, a) == Read(ram, a);
    }
  }

  /** After zero-filling a frame its words read as zero, and every other word is as before. */
  lemma ReadZeroed(ram: map<int, Word>, f: int, a: int)
    requires 0 <= f && f % 4096 == 0 && 0 <= a
    ensures Read(Zeroed(ram, f), a) == if f <= a < f + 4096 then ZERO else Read(ram, a)
  {
    var q := f / 4096;
    assert f == 4096 * q;
    var k := a / 4;
    assert 4 * k <= a < 4 * k + 4;
    assert k / 1024 == q <==> 1024 * q <= k < 1024 * q + 1024;
  }

  // mem_map[]

  /** The highest index below `n` whose count is 0, or -1. */
  function LastFree(mm: seq<int>, n: nat): (i: int)
    requires n <= |mm|
    ensures -1 <= i < n && (i >= 0 ==> mm[i] == 0)
  {
    if n == 0 then -1 else if mm[n - 1] == 0 then n - 1 else LastFree(mm, n - 1)
  }

  /** `LastFree` is the highest free index, and -1 means none is free. */
  lemma {:induction false} LastFreeHighest(mm: seq<int>, n: nat)
    requires n <= |mm|
    ensures var i := LastFree(mm, n);
            (forall j :: i < j < n ==> mm[j] != 0) && (i == -1 <==> forall j :: 0 <= j < n ==> mm[j] != 0)
  {
    if n > 0 && mm[n - 1] != 0 {
      LastFreeHighest(mm, n - 1);
    }
  }

  /** `get_free_page` on the counts: the counts after and the address handed out, 0 when none is free. */
  function Take(mm: seq<int>): (r: (seq<int>, int))
    requires |mm| == PAGING_PAGES
    ensures |r.0| == PAGING_PAGES
    ensures r.1 == 0 || (LOW_MEM <= r.1 < MEM_END && r.1 % 4096 == 0 && mm[MapNr(r.1)] == 0 &&
                         r.0 == mm[MapNr(r.1) := 1])
    ensures r.1 == 0 ==> r.0 == mm
  {
    var i := LastFree(mm, |mm|);
    if i < 0 then (mm, 0) else (mm[i := 1], LOW_MEM + i * 4096)
  }

  /**
   * `free_page(addr)` on the counts: an address below LOW_MEM is ignored;
   * one at or above `high`, or a frame whose count is already 0, is
   * fatal (None); otherwise the count drops by one.
   */
  function Drop(mm: seq<int>, high: int, addr: int): (r: Option<seq<int>>)
    requires |mm| == PAGING_PAGES && high <= MEM_END
    ensures r.Some? ==> |r.value| == PAGING_PAGES
    ensures r.None? <==> addr >= LOW_MEM && (addr >= high || mm[MapNr(addr)] == 0)
    ensures addr < LOW_MEM ==> r == Some(mm)
    ensures LOW_MEM <= addr < high && mm[MapNr(addr)] != 0 ==> r == Some(mm[MapNr(addr) := mm[MapNr(addr)] - 1])
  {
    if addr < LOW_MEM then Some(mm)
    else if addr >= high then None
    else if mm[MapNr(addr)] != 0 then Some(mm[MapNr(addr) := mm[MapNr(addr)] - 1])
    else None
  }

  /** Freeing the page `get_free_page` just handed out gives the counts back. */
  lemma TakeThenDrop(mm: seq<int>, high: int)
    requires |mm| == PAGING_PAGES && high <= MEM_END
    requires Take(mm).1 != 0 && Take(mm).1 < high
    ensures Drop(Take(mm).0, high, Take(mm).1) == Some(mm)
  {
    var (m1, a) := Take(mm);
    assert m1[MapNr(a) := 0] == mm;
  }

  /** `mem_map[i]++` on an `unsigned char`; an index past the table is not stored. */
  function Inc(mm: seq<int>, i: int): (r: seq<int>)
    ensures |r| == |mm|
    ensures 0 <= i < |mm| ==> r == mm[i := (mm[i] + 1) % 256]
    ensures !(0 <= i < |mm|) ==> r == mm
  {
    if 0 <= i < |mm| then mm[i := (mm[i] + 1) % 256] else mm
  }

  /** `mem_map[i]`, reading 0 past the table. */
  function At(mm: seq<int>, i: int): (r: int)
  {
    if 0 <= i < |mm| then mm[i] else 0
  }

  /** The counts `mem_init(start, end)` leaves: USED everywhere but the `n` frames from `start`, which are free. */
  function InitialMap(start: int, n: nat): (mm: seq<int>)
    ensures |mm| == PAGING_PAGES
    ensures forall i :: 0 <= i < PAGING_PAGES ==> mm[i] == if MapNr(start) <= i < MapNr(start) + n then 0 else USED
  {
    seq(PAGING_PAGES, i => if MapNr(start) <= i < MapNr(start) + n then 0 else USED)
  }

  /** The number of frames `mem_init` frees: `(end - start) >> 12` when positive. */
  function InitCount(start: int, end: int): (r: nat)
  {
    if end - start > 0 then (end - start) / 4096 else 0
  }

  /** After `mem_init`, `get_free_page` hands out the highest frame of the area, and counts it as used. */
  lemma FirstPageAfterInit(start: int, end: int)
    requires InitCount(start, end) > 0 && LOW_MEM <= start && MapNr(start) + InitCount(start, end) <= PAGING_PAGES
    ensures var mm := InitialMap(start, InitCount(start, end));
            var (m1, a) := Take(mm);
            MapNr(a) == MapNr(start) + InitCount(start, end) - 1 && a == LOW_MEM + 4096 * MapNr(a) && m1[MapNr(a)] == 1
  {
    var n := InitCount(start, end);
    var mm := InitialMap(start, n);
    var top := MapNr(start) + n - 1;
    LastFreeHighest(mm, |mm|);
    var i := LastFree(mm, |mm|);
    assert mm[top] == 0;
    assert i == top;
  }

  /** `mem_map[]`: an `unsigned char` count for each of the 3840 frames above LOW_MEM. */
  ghost predicate Counts(mm: seq<int>)
  {
    |mm| == PAGING_PAGES && forall i :: 0 <= i < PAGING_PAGES ==> 0 <= mm[i] < 256
  }

  /** The counts and the memory `free_page_tables` and `copy_page_tables` work on. */
  datatype St = St(mm: seq<int>, ram: map<int, Word>)

  /**
   * The inner loop of `free_page_tables`: for the `n` words from byte
   * address `q`, free the frame a present word points at, then zero the
   * word; None when a `free_page` is fatal.
   */
  function FreeWords(s: St, high: int, q: int, n: nat): (r: Option<St>)
    requires Counts(s.mm) && high <= MEM_END
    ensures r.Some? ==> Counts(r.value.mm)
    decreases n
  {
    if n == 0 then Some(s)
    else
      var w := Read(s.ram, q);
      var m := if Present(w) then Drop(s.mm, high, PageOf(w)) else Some(s.mm);
      if m.None? then None else FreeWords(St(m.value, Write(s.ram, q, ZERO)), high, q + 4, n - 1)
  }

  /**
   * One pass of the outer loop of `free_page_tables`, at the directory
   * entry at byte address `p`: a present entry has its table's pages
   * freed, then the table itself, and is zeroed; None when a `free_page`
   * is fatal.
   */
  function FreeDir(s: St, high: int, p: int): (r: Option<St>)
    requires Counts(s.mm) && high <= MEM_END
    ensures r.Some? ==> Counts(r.value.mm)
  {
    var e := Read(s.ram, p);
    if !Present(e) then Some(s)
    else match FreeWords(s, high, PageOf(e), 1024)
      case None => None
      case Some(s1) =>
        var m := Drop(s1.mm, high, PageOf(e));
        if m.None? then None else Some(St(m.value, Write(s1.ram, p, ZERO)))
  }

  /** The outer loop of `free_page_tables` over the `n` directory entries from byte address `p`. */
  function FreeDirs(s: St, high: int, p: int, n: nat): (r: Option<St>)
    requires Counts(s.mm) && high <= MEM_END
    ensures r.Some? ==> Counts(r.value.mm)
    decreases n
  {
    if n == 0 then Some(s)
    else match FreeDir(s, high, p)
      case None => None
      case Some(s0) => FreeDirs(s0, high, p + 4, n - 1)
  }

  /** `(size + 0x3fffff) >> 22` on an `unsigned long`: the number of 4 MB blocks. */
  function Blocks(size: u32): (r: nat)
  {
    (size + 0x3f_ffff) % 0x1_0000_0000 / 0x40_0000
  }

  /** The word `w` points at frame `i` of `mem_map[]`. */
  predicate Hits(w: Word, i: int)
  {
    Present(w) && PageOf(w) >= LOW_MEM && MapNr(PageOf(w)) == i
  }

  /** How many of the `n` words from byte address `q` point at frame `i`. */
  function Uses(ram: map<int, Word>, q: int, n: nat, i: int): (r: nat)
    decreases n
  {
    if n == 0 then 0 else (if Hits(Read(ram, q), i) then 1 else 0) + Uses(ram, q + 4, n - 1, i)
  }

  /** A store below the words counted does not change the count. */
  lemma {:induction false} UsesAbove(ram: map<int, Word>, a: int, v: Word, q: int, n: nat, i: int)
    requires a / 4 < q / 4
    ensures Uses(Write(ram, a, v), q, n, i) == Uses(ram, q, n, i)
    decreases n
  {
    if n > 0 {
      ReadWrite(ram, a, v, q);
      UsesAbove(ram, a, v, q + 4, n - 1, i);
    }
  }

  /**
   * When the inner loop of `free_page_tables` completes, every frame's
   * count has dropped by the number of the table's words that pointed at
   * it, and the words read as zero.
   */
  lemma {:induction false} FreeWordsCounts(s: St, high: int, q: int, n: nat)
    requires Counts(s.mm) && high <= MEM_END && FreeWords(s, high, q, n).Some?
    ensures var s1 := FreeWords(s, high, q, n).value;
            (forall i :: 0 <= i < PAGING_PAGES ==> s1.mm[i] == s.mm[i] - Uses(s.ram, q, n, i)) &&
            (forall k :: 0 <= k < n ==> Read(s1.ram, q + 4 * k) == ZERO)
    decreases n
  {
    if n > 0 {
      var w := Read(s.ram, q);
      var m := if Present(w) then Drop(s.mm, high, PageOf(w)) else Some(s.mm);
      var s0 := St(m.value, Write(s.ram, q, ZERO));
      FreeWordsCounts(s0, high, q + 4, n - 1);
      var s1 := FreeWords(s, high, q, n).value;
      assert s1 == FreeWords(s0, high, q + 4, n - 1).value;
      forall i | 0 <= i < PAGING_PAGES
        ensures s1.mm[i] == s.mm[i] - Uses(s.ram, q, n, i)
      {
        UsesAbove(s.ram, q, ZERO, q + 4, n - 1, i);
      }
      forall k | 0 <= k < n
        ensures Read(s1.ram, q + 4 * k) == ZERO
      {
        if k == 0 {
          ZeroKept(s0, high, q + 4, n - 1, q);
        } else {
          assert q + 4 * k == (q + 4) + 4 * (k - 1);
        }
      }
    }
  }

  /** A word that reads as zero, or as not present, still does after the inner loop of `free_page_tables`. */
  lemma {:induction false} ZeroKept(s: St, high: int, q: int, n: nat, a: int)
    requires Counts(s.mm) && high <= MEM_END && FreeWords(s, high, q, n).Some?
    ensures Read(s.ram, a) == ZERO ==> Read(FreeWords(s, high, q, n).value.ram, a) == ZERO
    ensures !Present(Read(s.ram, a)) ==> !Present(Read(FreeWords(s, high, q, n).value.ram, a))
    decreases n
  {
    if n > 0 {
      var w := Read(s.ram, q);
      var m := if Present(w) then Drop(s.mm, high, PageOf(w)) else Some(s.mm);
      var s0 := St(m.value, Write(s.ram, q, ZERO));
      ReadWrite(s.ram, q, ZERO, a);
      ZeroKept(s0, high, q + 4, n - 1, a);
    }
  }

  /** One pass of the outer loop leaves its entry not present and grows no frame's count. */
  lemma FreeDirClears(s: St, high: int, p: int)
    requires Counts(s.mm) && high <= MEM_END && FreeDir(s, high, p).Some?
    ensures var s0 := FreeDir(s, high, p).value;
            !Present(Read(s0.ram, p)) && forall i :: 0 <= i < PAGING_PAGES ==> s0.mm[i] <= s.mm[i]
  {
    var e := Read(s.ram, p);
    if Present(e) {
      var sw := FreeWords(s, high, PageOf(e), 1024).value;
      FreeWordsCounts(s, high, PageOf(e), 1024);
      ReadWrite(sw.ram, p, ZERO, p);
    }
  }

  /** One pass of the outer loop keeps a word that reads as not present so. */
  lemma FreeDirKeeps(s: St, high: int, p: int, a: int)
    requires Counts(s.mm) && high <= MEM_END && FreeDir(s, high, p).Some? && !Present(Read(s.ram, a))
    ensures !Present(Read(FreeDir(s, high, p).value.ram, a))
  {
    var e := Read(s.ram, p);
    if Present(e) {
      var sw := FreeWords(s, high, PageOf(e), 1024).value;
      ZeroKept(s, high, PageOf(e), 1024, a);
      ReadWrite(sw.ram, p, ZERO, a);
    }
  }

  /** A word that reads as not present still does after the outer loop of `free_page_tables`. */
  lemma {:induction false} ZeroKeptDirs(s: St, high: int, p: int, n: nat, a: int)
    requires Counts(s.mm) && high <= MEM_END && FreeDirs(s, high, p, n).Some?
    requires !Present(Read(s.ram, a))
    ensures !Present(Read(FreeDirs(s, high, p, n).value.ram, a))
    decreases n
  {
    if n > 0 {
      FreeDirKeeps(s, high, p, a);
      ZeroKeptDirs(FreeDir(s, high, p).value, high, p + 4, n - 1, a);
    }
  }

  /**
   * When `free_page_tables` completes, no directory entry it walked is
   * present (the ones that were are zeroed) and no frame's count has grown.
   */
  lemma {:induction false} FreeDirsClears(s: St, high: int, p: int, n: nat)
    requires Counts(s.mm) && high <= MEM_END && FreeDirs(s, high, p, n).Some?
    ensures var s1 := FreeDirs(s, high, p, n).value;
            (forall k :: 0 <= k < n ==> !Present(Read(s1.ram, p + 4 * k))) &&
            (forall i :: 0 <= i < PAGING_PAGES ==> s1.mm[i] <= s.mm[i])
    decreases n
  {
    if n > 0 {
      var s0 := FreeDir(s, high, p).value;
      FreeDirClears(s, high, p);
      FreeDirsClears(s0, high, p + 4, n - 1);
      var s1 := FreeDirs(s0, high, p + 4, n - 1).value;
      forall k | 0 <= k < n
        ensures !Present(Read(s1.ram, p + 4 * k))
      {
        if k == 0 {
          ZeroKeptDirs(s0, high, p + 4, n - 1, p);
        } else {
          assert p + 4 * k == (p + 4) + 4 * (k - 1);
        }
      }
    }
  }

  /** The inner loop of `free_page_tables` over the `n0` words of the table at `t`, as `FreeWords` says. */
  method ClearTable(s: St, high: int, t: int, n0: nat) returns (r: Option<St>)
    requires Counts(s.mm) && high <= MEM_END
    ensures r == FreeWords(s, high, t, n0)
  {
    var cur := s;
    var q, n := t, n0;
    while n > 0
      invariant Counts(cur.mm) && FreeWords(cur, high, q, n) == FreeWords(s, high, t, n0)
    {
      var w := Read(cur.ram, q);
      var mm := cur.mm;
      if Present(w) {
        var m := Drop(mm, high, PageOf(w));
        if m.None? {
          return None;
        }
        mm := m.value;
      }
      cur := St(mm, Write(cur.ram, q, ZERO));
      q, n := q + 4, n - 1;
    }
    r := Some(cur);
  }

  /** The outer loop of `free_page_tables`, as `FreeDirs` says. */
  method ClearDirs(s: St, high: int, p0: int, n0: nat) returns (r: Option<St>)
    requires Counts(s.mm) && high <= MEM_END
    ensures r == FreeDirs(s, high, p0, n0)
  {
    var cur := s;
    var p, n := p0, n0;
    while n > 0
      invariant Counts(cur.mm) && FreeDirs(cur, high, p, n) == FreeDirs(s, high, p0, n0)
    {
      var e := Read(cur.ram, p);
      if Present(e) {
        var t := ClearTable(cur, high, PageOf(e), 1024);
        if t.None? {
          return None;
        }
        var m := Drop(t.value.mm, high, PageOf(e));
        if m.None? {
          return None;
        }
        cur := St(m.value, Write(t.value.ram, p, ZERO));
      }
      p, n := p + 4, n - 1;
    }
    r := Some(cur);
  }

  /** Whether `copy_page_tables` finished, ran out of memory part-way, or panicked. */
  datatype Copy = Copied(s: St) | NoMemory(s: St) | Broken

  /**
   * The inner loop of `copy_page_tables` over `n` words of the table at
   * `src` into the table at `dst`: a present word is copied read-only; when
   * it lies above LOW_MEM the source word is made read-only too and the
   * frame's count goes up by one.
   */
  function CopyWords(s: St, src: int, dst: int, n: nat): (r: St)
    requires Counts(s.mm)
    ensures Counts(r.mm)
    decreases n
  {
    if n == 0 then s else CopyWords(CopyWord(s, src, dst), src + 4, dst + 4, n - 1)
  }

  /** One pass of that loop, on the word at `src` and its copy at `dst`. */
  function CopyWord(s: St, src: int, dst: int): (r: St)
    requires Counts(s.mm)
    ensures Counts(r.mm)
  {
    var w := Read(s.ram, src);
    if !Present(w) then s
    else
      var v := ReadOnly(w);
      var ram1 := Write(s.ram, dst, v);
      if AboveLow(v) then St(Inc(s.mm, v.frame - LOW_MEM / 4096), Write(ram1, src, v)) else St(s.mm, ram1)
  }

  /** One pass changes no word but the two it copies between. */
  lemma CopyWordKeeps(s: St, src: int, dst: int, a: int)
    requires Counts(s.mm) && src % 4 == 0 && dst % 4 == 0 && a % 4 == 0 && a != src && a != dst
    ensures Read(CopyWord(s, src, dst).ram, a) == Read(s.ram, a)
  {
    var v := ReadOnly(Read(s.ram, src));
    ReadWrite(s.ram, dst, v, a);
    ReadWrite(Write(s.ram, dst, v), src, v, a);
  }

  /**
   * The word at `a` of `ram` was copied to `b` as `copy_page_tables`
   * copies it in `ram1`: a present word arrives read-only and the source
   * is made read-only too when the page is above LOW_MEM; an absent word
   * leaves both as they were.
   */
  ghost predicate CopiedAt(ram: map<int, Word>, ram1: map<int, Word>, a: int, b: int)
  {
    var w := Read(ram, a);
    (Present(w) ==> Read(ram1, b) == ReadOnly(w)) &&
    (!Present(w) ==> Read(ram1, b) == Read(ram, b)) &&
    Read(ram1, a) == (if Present(w) && AboveLow(ReadOnly(w)) then ReadOnly(w) else w)
  }

  /** One pass copies its word as `CopiedAt` says. */
  lemma CopyWordEntry(s: St, src: int, dst: int)
    requires Counts(s.mm) && src % 4 == 0 && dst % 4 == 0 && src != dst
    ensures CopiedAt(s.ram, CopyWord(s, src, dst).ram, src, dst)
  {
    var v := ReadOnly(Read(s.ram, src));
    ReadWrite(s.ram, dst, v, src);
    ReadWrite(s.ram, dst, v, dst);
    ReadWrite(Write(s.ram, dst, v), src, v, dst);
    ReadWrite(Write(s.ram, dst, v), src, v, src);
  }

  /** One pass adds a reference to frame `i` exactly when the source word names it, modulo 256. */
  lemma CopyWordCount(s: St, src: int, dst: int, i: int)
    requires Counts(s.mm) && 0 <= i < PAGING_PAGES
    ensures CopyWord(s, src, dst).mm[i] == Shared(s.mm[i], if Hits(Read(s.ram, src), i) then 1 else 0)
  {
  }

  /**
   * The outer loop of `copy_page_tables` over `n` directory entries from
   * `fd` into those from `td`, with `nr` words copied per table: a present
   * destination entry panics, an absent source entry is skipped, and
   * otherwise a fresh page becomes the destination table.
   */
  function CopyDirs(s: St, fd: int, td: int, n: nat, nr: nat): (r: Copy)
    requires Counts(s.mm)
    ensures !r.Broken? ==> Counts(r.s.mm)
    decreases n
  {
    if n == 0 then Copied(s)
    else if Present(Read(s.ram, td)) then Broken
    else
      var e := Read(s.ram, fd);
      if !Present(e) then CopyDirs(s, fd + 4, td + 4, n - 1, nr)
      else
        var (mm1, tp) := Take(s.mm);
        if tp == 0 then NoMemory(s)
        else
          var ram1 := Write(Zeroed(s.ram, tp), td, Word(tp / 4096, 7));
          CopyDirs(CopyWords(St(mm1, ram1), PageOf(e), tp, nr), fd + 4, td + 4, n - 1, nr)
  }

  /** The words from `a` up to `a + 4 * n` and from `b` up to `b + 4 * m` are distinct. */
  predicate Apart(a: int, n: nat, b: int, m: nat)
  {
    a + 4 * n <= b || b + 4 * m <= a
  }

  /**
   * For two tables that do not overlap, `copy_page_tables` leaves each
   * present source word and its copy equal and read-only when the page is
   * above LOW_MEM (copy-on-write), and the source word alone writable
   * otherwise; an absent word is not copied.
   */
  lemma {:induction false} CopyWordsEntries(s: St, src: int, dst: int, n: nat)
    requires Counts(s.mm) && src % 4 == 0 && dst % 4 == 0 && Apart(src, n, dst, n)
    ensures forall k :: 0 <= k < n ==> CopiedAt(s.ram, CopyWords(s, src, dst, n).ram, src + 4 * k, dst + 4 * k)
    decreases n
  {
    if n > 0 {
      var s0 := CopyWord(s, src, dst);
      var s1 := CopyWords(s, src, dst, n);
      CopyWordsEntries(s0, src + 4, dst + 4, n - 1);
      forall k | 0 <= k < n
        ensures CopiedAt(s.ram, s1.ram, src + 4 * k, dst + 4 * k)
      {
        if k == 0 {
          CopyWordsFirst(s, src, dst, n);
        } else {
          assert CopiedAt(s0.ram, s1.ram, (src + 4) + 4 * (k - 1), (dst + 4) + 4 * (k - 1));
          CopyWordsLater(s, src, dst, k, s1.ram);
        }
      }
    }
  }

  /** The first word of the copy, which the later passes leave alone. */
  lemma CopyWordsFirst(s: St, src: int, dst: int, n: nat)
    requires Counts(s.mm) && src % 4 == 0 && dst % 4 == 0 && Apart(src, n, dst, n) && n > 0
    ensures CopiedAt(s.ram, CopyWords(s, src, dst, n).ram, src, dst)
  {
    var s0 := CopyWord(s, src, dst);
    CopyWordsOutside(s0, src + 4, dst + 4, n - 1, src);
    CopyWordsOutside(s0, src + 4, dst + 4, n - 1, dst);
    CopyWordEntry(s, src, dst);
  }

  /** A later word of the copy, which the first pass left alone. */
  lemma CopyWordsLater(s: St, src: int, dst: int, k: nat, r: map<int, Word>)
    requires Counts(s.mm) && src % 4 == 0 && dst % 4 == 0 && k > 0 && src + 4 * k != dst && dst + 4 * k != src
    requires CopiedAt(CopyWord(s, src, dst).ram, r, (src + 4) + 4 * (k - 1), (dst + 4) + 4 * (k - 1))
    ensures CopiedAt(s.ram, r, src + 4 * k, dst + 4 * k)
  {
    assert src + 4 * k == (src + 4) + 4 * (k - 1);
    assert dst + 4 * k == (dst + 4) + 4 * (k - 1);
    CopyWordKeeps(s, src, dst, src + 4 * k);
    CopyWordKeeps(s, src, dst, dst + 4 * k);
  }

  /** `CopyWords` touches only the words of the two tables it walks. */
  lemma {:induction false} CopyWordsOutside(s: St, src: int, dst: int, n: nat, a: int)
    requires Counts(s.mm) && src % 4 == 0 && dst % 4 == 0 && a % 4 == 0
    requires (a < src || src + 4 * n <= a) && (a < dst || dst + 4 * n <= a)
    ensures Read(CopyWords(s, src, dst, n).ram, a) == Read(s.ram, a)
    decreases n
  {
    if n > 0 {
      CopyWordKeeps(s, src, dst, a);
      CopyWordsOutside(CopyWord(s, src, dst), src + 4, dst + 4, n - 1, a);
    }
  }

  /** The count of frame `i` after `k` more references, as an `unsigned char`. */
  function Shared(c: int, k: nat): (r: int)
  {
    (c + k) % 256
  }

  /** Counting one more reference, then `k` more, is counting `k + 1`. */
  lemma ShareStep(c: int, k: nat)
    ensures Shared(Shared(c, 1), k) == Shared(c, k + 1)
  {
    var q := (c + 1) / 256;
    assert (c + 1) % 256 == c + 1 - 256 * q;
    assert ((c + 1 - 256 * q) + k) % 256 == (c + 1 + k) % 256 by {
      assert (c + 1 + k) == (c + 1 - 256 * q + k) + 256 * q;
    }
  }

  /**
   * `copy_page_tables` raises the count of each frame above LOW_MEM by
   * the number of present source words that point at it (modulo 256, as
   * `mem_map[]` holds `unsigned char`s).
   */
  lemma {:induction false} CopyWordsCounts(s: St, src: int, dst: int, n: nat)
    requires Counts(s.mm) && src % 4 == 0 && dst % 4 == 0 && Apart(src, n, dst, n)
    ensures var s1 := CopyWords(s, src, dst, n);
            forall i :: 0 <= i < PAGING_PAGES ==> s1.mm[i] == Shared(s.mm[i], Uses(s.ram, src, n, i))
    decreases n
  {
    if n > 0 {
      var w := Read(s.ram, src);
      var s0 := CopyWord(s, src, dst);
      CopyWordsCounts(s0, src + 4, dst + 4, n - 1);
      forall a | a % 4 == 0 && a != src && a != dst
        ensures Read(s0.ram, a) == Read(s.ram, a)
      {
        CopyWordKeeps(s, src, dst, a);
      }
      forall i | 0 <= i < PAGING_PAGES
        ensures CopyWords(s, src, dst, n).mm[i] == Shared(s.mm[i], Uses(s.ram, src, n, i))
      {
        UsesOutside(s.ram, s0.ram, src + 4, n - 1, i, src, dst);
        CopyWordCount(s, src, dst, i);
        if Hits(w, i) {
          ShareStep(s.mm[i], Uses(s.ram, src + 4, n - 1, i));
        }
      }
    }
  }

  /** Stores to `src`'s word and outside the `n` words from `q` do not change `Uses` there. */
  lemma {:induction false} UsesOutside(ram: map<int, Word>, ram1: map<int, Word>, q: int, n: nat, i: int, src: int, dst: int)
    requires q % 4 == 0 && src % 4 == 0 && dst % 4 == 0 && src < q && Apart(q, n, dst, 1)
    requires forall a :: a % 4 == 0 && a != src && a != dst ==> Read(ram1, a) == Read(ram, a)
    ensures Uses(ram1, q, n, i) == Uses(ram, q, n, i)
    decreases n
  {
    if n > 0 {
      assert Read(ram1, q) == Read(ram, q);
      UsesOutside(ram, ram1, q + 4, n - 1, i, src, dst);
    }
  }

  /** The table walk `CopyWords` as a loop. */
  method ShareTable(s: St, src: int, dst: int, n: nat) returns (r: St)
    requires Counts(s.mm)
    ensures r == CopyWords(s, src, dst, n)
  {
    var cur := s;
    var f, t, k := src, dst, n;
    while k > 0
      invariant Counts(cur.mm) && CopyWords(cur, f, t, k) == CopyWords(s, src, dst, n)
    {
      var w := Read(cur.ram, f);
      if Present(w) {
        var v := ReadOnly(w);
        cur := cur.(ram := Write(cur.ram, t, v));
        if AboveLow(v) {
          cur := St(Inc(cur.mm, v.frame - LOW_MEM / 4096), Write(cur.ram, f, v));
        }
      }
      f, t, k := f + 4, t + 4, k - 1;
    }
    r := cur;
  }

  /** The directory walk `CopyDirs` as a loop. */
  method ShareDirs(s: St, fd0: int, td0: int, n0: nat, nr: nat) returns (r: Copy)
    requires Counts(s.mm)
    ensures r == CopyDirs(s, fd0, td0, n0, nr)
  {
    var cur := s;
    var fd, td, n := fd0, td0, n0;
    while n > 0
      invariant Counts(cur.mm) && CopyDirs(cur, fd, td, n, nr) == CopyDirs(s, fd0, td0, n0, nr)
    {
      if Present(Read(cur.ram, td)) {
        return Broken;
      }
      var e := Read(cur.ram, fd);
      if Present(e) {
        var (mm1, tp) := Take(cur.mm);
        if tp == 0 {
          return NoMemory(cur);
        }
        var ram1 := Write(Zeroed(cur.ram, tp), td, Word(tp / 4096, 7));
        cur := ShareTable(St(mm1, ram1), PageOf(e), tp, nr);
      }
      fd, td, n := fd + 4, td + 4, n - 1;
    }
    r := Copied(cur);
  }

  /** How a page-fault helper ends: with the new state and its return value, out of memory (`oom()`), or in a panic. */
  datatype Outcome = Ok(s: St, r: int) | Oom | Fatal

  /** The byte address of `a`'s page-table entry through the directory entry at `dir`; None when that entry is absent. */
  function EntryAt(ram: map<int, Word>, dir: int, a: u32): (r: Option<int>)
    ensures r.Some? ==> Present(Read(ram, dir)) && r.value == PageOf(Read(ram, dir)) + TableOffset(a)
    ensures r.None? ==> !Present(Read(ram, dir))
  {
    var d := Read(ram, dir);
    if Present(d) then Some(PageOf(d) + TableOffset(a)) else None
  }

  /** The byte address of the page-table entry that maps linear address `a`, with the directory at 0. */
  function Lookup(ram: map<int, Word>, a: u32): (r: Option<int>)
  {
    EntryAt(ram, DirOffset(a), a)
  }

  /**
   * `put_page(page, address)`: `page | 7` goes into the table entry for
   * `address`; an absent table is first taken from `get_free_page` and
   * entered in the directory as `tmp | 7`. The page is returned, or 0
   * when no table page could be had.
   */
  function Put(s: St, page: int, address: u32): (r: (St, int))
    requires Counts(s.mm) && 0 <= page && page % 4096 == 0
    ensures Counts(r.0.mm)
  {
    var v := Or7(AddrWord(page));
    match Lookup(s.ram, address)
    case Some(te) => (St(s.mm, Write(s.ram, te, v)), page)
    case None =>
      var (mm1, tmp) := Take(s.mm);
      if tmp == 0 then (s, 0)
      else
        var ram1 := Write(Zeroed(s.ram, tmp), DirOffset(address), Or7(AddrWord(tmp)));
        (St(mm1, Write(ram1, tmp + TableOffset(address), v)), page)
  }

  /**
   * After `put_page` succeeds, `address` translates to `page`, present,
   * writable and user-accessible; when it fails nothing has changed. A
   * table already in the directory must not be the directory itself.
   */
  lemma PutPageMaps(s: St, page: int, address: u32)
    requires Counts(s.mm) && 0 < page && page % 4096 == 0
    requires Lookup(s.ram, address).Some? ==> PageOf(Read(s.ram, DirOffset(address))) != 0
    ensures var (s1, r) := Put(s, page, address);
            (r == 0 ==> s1 == s) &&
            (r != 0 ==> r == page && Lookup(s1.ram, address).Some? &&
                        Read(s1.ram, Lookup(s1.ram, address).value) == Or7(AddrWord(page)))
    ensures Lookup(s.ram, address).Some? ==> Put(s, page, address).1 == page
  {
    var v := Or7(AddrWord(page));
    var dir := DirOffset(address);
    match Lookup(s.ram, address)
    case Some(te) =>
      assert te >= 4096;
      ReadWrite(s.ram, te, v, dir);
      ReadWrite(s.ram, te, v, te);
    case None =>
      var (mm1, tmp) := Take(s.mm);
      if tmp != 0 {
        var ram1 := Write(Zeroed(s.ram, tmp), dir, Or7(AddrWord(tmp)));
        var te := tmp + TableOffset(address);
        ReadWrite(Zeroed(s.ram, tmp), dir, Or7(AddrWord(tmp)), dir);
        ReadWrite(ram1, te, v, dir);
        ReadWrite(ram1, te, v, te);
      }
  }

  /** `mem_map[i]--` on an `unsigned char`; an index past the table is not stored. */
  function Dec(mm: seq<int>, i: int): (r: seq<int>)
    ensures |r| == |mm|
    ensures 0 <= i < |mm| ==> r == mm[i := (mm[i] - 1) % 256]
    ensures !(0 <= i < |mm|) ==> r == mm
  {
    if 0 <= i < |mm| then mm[i := (mm[i] - 1) % 256] else mm
  }

  /**
   * `un_wp_page(te)` on the entry at byte address `te`: a page at or
   * above LOW_MEM that only this entry refers to is made writable;
   * otherwise a fresh page replaces it as `new | 7`, and the old page's
   * count drops when it lies at or above LOW_MEM.
   */
  function UnWp(s: St, te: int): (r: Outcome)
    requires Counts(s.mm)
    ensures r.Ok? ==> Counts(r.s.mm) && r.r == 0
    ensures !r.Fatal?
  {
    var e := Read(s.ram, te);
    var pg := PageOf(e);
    if pg >= LOW_MEM && At(s.mm, MapNr(pg)) == 1 then Ok(St(s.mm, Write(s.ram, te, MakeWritable(e))), 0)
    else
      var (mm1, nw) := Take(s.mm);
      if nw == 0 then Oom
      else
        var mm2 := if pg >= LOW_MEM then Dec(mm1, MapNr(pg)) else mm1;
        Ok(St(mm2, CopyPage(Write(Zeroed(s.ram, nw), te, Or7(AddrWord(nw))), pg, nw)), 0)
  }

  /**
   * After `un_wp_page` the entry is present and writable. A page used
   * once keeps its frame and count; a shared one is replaced by a page
   * counted once, and the old page loses one reference.
   */
  lemma UnWpPageWritable(s: St, te: int)
    requires Counts(s.mm) && 0 <= te
    requires Present(Read(s.ram, te)) && (te < LOW_MEM || At(s.mm, MapNr(te)) != 0)
    ensures match UnWp(s, te)
            case Oom => Take(s.mm).1 == 0
            case Fatal => false
            case Ok(s1, _) =>
              var e := Read(s.ram, te);
              var e1 := Read(s1.ram, te);
              Present(e1) && Writable(e1) &&
              (PageOf(e) >= LOW_MEM && At(s.mm, MapNr(PageOf(e))) == 1 ==> e1 == MakeWritable(e) && s1.mm == s.mm) &&
              (!(PageOf(e) >= LOW_MEM && At(s.mm, MapNr(PageOf(e))) == 1) ==>
                 PageOf(e1) == Take(s.mm).1 && s.mm[MapNr(PageOf(e1))] == 0 &&
                 (PageOf(e1) != PageOf(e) ==> s1.mm[MapNr(PageOf(e1))] == 1) &&
                 (LOW_MEM <= PageOf(e) < MEM_END && PageOf(e1) != PageOf(e) ==>
                    s1.mm[MapNr(PageOf(e))] == (s.mm[MapNr(PageOf(e))] - 1) % 256))
  {
    var e := Read(s.ram, te);
    ReadWrite(s.ram, te, MakeWritable(e), te);
    var (mm1, nw) := Take(s.mm);
    if nw != 0 {
      ReadWrite(Zeroed(s.ram, nw), te, Or7(AddrWord(nw)), te);
      OutsideFresh(s.mm, te);
      ReadCopyPage(Write(Zeroed(s.ram, nw), te, Or7(AddrWord(nw))), PageOf(e), nw, te);
      if PageOf(e) != nw && LOW_MEM <= PageOf(e) < MEM_END {
        assert MapNr(PageOf(e)) != MapNr(nw) by {
          assert PageOf(e) == 4096 * e.frame;
        }
      }
    }
  }

  /** An address below LOW_MEM or in a frame in use lies outside the frame `get_free_page` hands out. */
  lemma OutsideFresh(mm: seq<int>, a: int)
    requires |mm| == PAGING_PAGES && 0 <= a && (a < LOW_MEM || At(mm, MapNr(a)) != 0)
    ensures var nw := Take(mm).1; nw != 0 ==> !(nw <= a < nw + 4096)
  {
  }

  /**
   * `un_wp_page` on a shared page copies it: the fresh frame holds the
   * old frame's 1024 words, and no other word changes but the entry,
   * when the entry lies outside the old frame and the frames differ.
   */
  lemma UnWpCopies(s: St, te: int)
    requires Counts(s.mm) && 0 <= te
    ensures match UnWp(s, te)
            case Ok(s1, _) =>
              var pg := PageOf(Read(s.ram, te));
              var nw := Take(s.mm).1;
              !(pg >= LOW_MEM && At(s.mm, MapNr(pg)) == 1) && nw != pg && !(nw <= te < nw + 4096) &&
              !(pg <= te < pg + 4096) ==>
                Read(s1.ram, te) == Or7(AddrWord(nw)) &&
                (forall k :: 0 <= k < 1024 ==> Read(s1.ram, nw + 4 * k) == Read(s.ram, pg + 4 * k)) &&
                (forall a :: 0 <= a && !SameWord(a, te) && !(nw <= a < nw + 4096) ==> Read(s1.ram, a) == Read(s.ram, a))
            case _ => true
  {
    var e := Read(s.ram, te);
    var pg := PageOf(e);
    var (mm1, nw) := Take(s.mm);
    if !(pg >= LOW_MEM && At(s.mm, MapNr(pg)) == 1) && nw != 0 && nw != pg && !(nw <= te < nw + 4096) &&
       !(pg <= te < pg + 4096) {
      CopiedFrame(s.ram, te, Or7(AddrWord(nw)), pg, nw);
    }
  }

  /** The words of memory once a fresh frame `nw` is zeroed, `v` stored at `te`, and frame `pg` copied over `nw`. */
  lemma CopiedFrame(ram: map<int, Word>, te: int, v: Word, pg: int, nw: int)
    requires 0 <= te && 0 <= pg && 0 <= nw && pg % 4096 == 0 && nw % 4096 == 0 && nw != pg
    requires !(nw <= te < nw + 4096) && !(pg <= te < pg + 4096)
    ensures var r := CopyPage(Write(Zeroed(ram, nw), te, v), pg, nw);
            Read(r, te) == v &&
            (forall k :: 0 <= k < 1024 ==> Read(r, nw + 4 * k) == Read(ram, pg + 4 * k)) &&
            (forall a :: 0 <= a && !SameWord(a, te) && !(nw <= a < nw + 4096) ==> Read(r, a) == Read(ram, a))
  {
    var ram1 := Write(Zeroed(ram, nw), te, v);
    ReadWrite(Zeroed(ram, nw), te, v, te);
    ReadCopyPage(ram1, pg, nw, te);
    forall k | 0 <= k < 1024
      ensures Read(CopyPage(ram1, pg, nw), nw + 4 * k) == Read(ram, pg + 4 * k)
    {
      CopiedWord(ram, te, v, pg, nw, nw + 4 * k);
    }
    forall a | 0 <= a && !SameWord(a, te) && !(nw <= a < nw + 4096)
      ensures Read(CopyPage(ram1, pg, nw), a) == Read(ram, a)
    {
      CopiedWord(ram, te, v, pg, nw, a);
    }
  }

  /** One word of memory after that copy: in frame `nw` the word of frame `pg`, elsewhere but at `te` the word before. */
  lemma CopiedWord(ram: map<int, Word>, te: int, v: Word, pg: int, nw: int, a: int)
    requires 0 <= te && 0 <= pg && 0 <= nw && pg % 4096 == 0 && nw % 4096 == 0 && nw != pg && 0 <= a
    requires !(nw <= te < nw + 4096) && !(pg <= te < pg + 4096)
    ensures var r := CopyPage(Write(Zeroed(ram, nw), te, v), pg, nw);
            (nw <= a < nw + 4096 ==> Read(r, a) == Read(ram, pg + (a - nw))) &&
            (!SameWord(a, te) && !(nw <= a < nw + 4096) ==> Read(r, a) == Read(ram, a))
  {
    var ram1 := Write(Zeroed(ram, nw), te, v);
    ReadCopyPage(ram1, pg, nw, a);
    if nw <= a < nw + 4096 {
      ReadWrite(Zeroed(ram, nw), te, v, pg + (a - nw));
      ReadZeroed(ram, nw, pg + (a - nw));
    } else {
      ReadWrite(Zeroed(ram, nw), te, v, a);
      ReadZeroed(ram, nw, a);
    }
  }

  /**
   * `write_verify(address)`: when the directory entry for `address` is
   * present and its page-table entry is present but read-only
   * (`(entry & 3) == 1`), `un_wp_page` runs on that entry; otherwise
   * nothing changes.
   */
  function WriteVerify(s: St, address: u32): (r: Outcome)
    requires Counts(s.mm)
    ensures r.Ok? ==> Counts(r.s.mm) && r.r == 0
    ensures !r.Fatal?
  {
    match Lookup(s.ram, address)
    case None => Ok(s, 0)
    case Some(te) => if Read(s.ram, te).flags & 3 == 1 then UnWp(s, te) else Ok(s, 0)
  }

  /**
   * After `write_verify`, an address whose page was present is mapped by
   * a present, writable entry, provided the page table lies outside the
   * directory and below the free pages `get_free_page` may zero.
   */
  lemma WriteVerifyWritable(s: St, address: u32)
    requires Counts(s.mm)
    requires Lookup(s.ram, address).Some? ==>
               var te := Lookup(s.ram, address).value;
               PageOf(Read(s.ram, DirOffset(address))) != 0 && (te < LOW_MEM || At(s.mm, MapNr(te)) != 0)
    ensures match WriteVerify(s, address)
            case Ok(s1, _) =>
              Lookup(s.ram, address).Some? && Present(Read(s.ram, Lookup(s.ram, address).value)) ==>
                Lookup(s1.ram, address) == Lookup(s.ram, address) &&
                Present(Read(s1.ram, Lookup(s1.ram, address).value)) && Writable(Read(s1.ram, Lookup(s1.ram, address).value))
            case Oom => true
            case Fatal => false
  {
    match Lookup(s.ram, address)
    case None =>
    case Some(te) =>
      var e := Read(s.ram, te);
      var dir := DirOffset(address);
      if Present(e) && e.flags & 3 == 1 {
        UnWpPageWritable(s, te);
        assert te >= 4096;
        ReadWrite(s.ram, te, MakeWritable(e), dir);
        var (mm1, nw) := Take(s.mm);
        if !(PageOf(e) >= LOW_MEM && At(s.mm, MapNr(PageOf(e))) == 1) && nw != 0 {
          ReadZeroed(s.ram, nw, dir);
          ReadWrite(Zeroed(s.ram, nw), te, Or7(AddrWord(nw)), dir);
          ReadCopyPage(Write(Zeroed(s.ram, nw), te, Or7(AddrWord(nw))), PageOf(e), nw, dir);
        }
      } else if Present(e) {
        assert Writable(e) by {
          assert e.flags & 3 != 1;
          assert e.flags & 1 != 0;
        }
      }
  }

  /**
   * The last steps of `try_to_share`, with the two page-table entries
   * known: a present destination entry panics; otherwise the source
   * entry is made read-only, copied into the destination, and the
   * shared page's count goes up.
   */
  function ShareEntry(s: St, fp: int, tpe: int, pa: int): (r: Outcome)
    requires Counts(s.mm)
    ensures r.Ok? ==> Counts(r.s.mm) && r.r == 1
    ensures r.Fatal? <==> Present(Read(s.ram, tpe))
  {
    if Present(Read(s.ram, tpe)) then Fatal
    else
      var ram1 := Write(s.ram, fp, ReadOnly(Read(s.ram, fp)));
      Ok(St(Inc(s.mm, MapNr(pa)), Write(ram1, tpe, Read(ram1, fp))), 1)
  }

  /**
   * `try_to_share(address, p)` with `p`'s and the current task's code
   * bases: the page at `address` in `p` is shared only when its entry is
   * present and clean and its frame lies in [LOW_MEM, HIGH_MEMORY);
   * a missing destination table is taken from `get_free_page` (out of
   * memory when none is free).
   */
  function TryShare(s: St, high: int, address: u32, pStart: u32, curStart: u32): (r: Outcome)
    requires Counts(s.mm)
    ensures r.Ok? ==> Counts(r.s.mm) && (r.r == 0 || r.r == 1)
  {
    ShareFrom(s, high, DirOffset(address) + DirOffset(pStart), DirOffset(address) + DirOffset(curStart), address)
  }

  /** `try_to_share` through the directory entries at `fromDir` (of `p`) and `toDir` (of the current task). */
  function ShareFrom(s: St, high: int, fromDir: int, toDir: int, address: u32): (r: Outcome)
    requires Counts(s.mm)
    ensures r.Ok? ==> Counts(r.s.mm) && (r.r == 0 || r.r == 1)
  {
    match EntryAt(s.ram, fromDir, address)
    case None => Ok(s, 0)
    case Some(fp) =>
      var phys := Read(s.ram, fp);
      if !Present(phys) || Dirty(phys) then Ok(s, 0)
      else
        var pa := PageOf(phys);
        if pa >= high || pa < LOW_MEM then Ok(s, 0)
        else ShareInto(s, fp, pa, toDir, address)
  }

  /**
   * The second half of `try_to_share`: the current task's table for
   * `address` through the directory entry at `toDir`, allocated when
   * absent, receives the entry at `fp`.
   */
  function ShareInto(s: St, fp: int, pa: int, toDir: int, address: u32): (r: Outcome)
    requires Counts(s.mm)
    ensures r.Ok? ==> Counts(r.s.mm) && r.r == 1
  {
    match EntryAt(s.ram, toDir, address)
    case Some(tpe) => ShareEntry(s, fp, tpe, pa)
    case None =>
      var (mm1, tp) := Take(s.mm);
      if tp == 0 then Oom
      else ShareEntry(St(mm1, Write(Zeroed(s.ram, tp), toDir, Or7(AddrWord(tp)))), fp, tp + TableOffset(address), pa)
  }

  /**
   * When `try_to_share` shares, the two entries end equal and read-only,
   * pointing at the shared page, whose count went up by one; when it
   * declines, nothing has changed. The source entry's table must be a
   * page above LOW_MEM in use, so that `get_free_page` cannot hand it out,
   * and the shared page must be in use.
   */
  lemma TryToShareShares(s: St, high: int, address: u32, pStart: u32, curStart: u32)
    requires Counts(s.mm) && high <= MEM_END
    requires var fromDir := DirOffset(address) + DirOffset(pStart);
             EntryAt(s.ram, fromDir, address).Some? ==>
               var fp := EntryAt(s.ram, fromDir, address).value;
               fp >= LOW_MEM && At(s.mm, MapNr(fp)) != 0 && At(s.mm, MapNr(PageOf(Read(s.ram, fp)))) != 0
    ensures var r := TryShare(s, high, address, pStart, curStart);
            var fromDir := DirOffset(address) + DirOffset(pStart);
            var toDir := DirOffset(address) + DirOffset(curStart);
            (r.Ok? && r.r == 0 ==> r.s == s) &&
            (r.Ok? && r.r == 1 ==>
               var fp := EntryAt(s.ram, fromDir, address).value;
               var phys := Read(s.ram, fp);
               var tpe := EntryAt(r.s.ram, toDir, address);
               Present(phys) && !Dirty(phys) && LOW_MEM <= PageOf(phys) < high &&
               tpe.Some? && Read(r.s.ram, tpe.value) == ReadOnly(phys) && Read(r.s.ram, fp) == ReadOnly(phys) &&
               r.s.mm[MapNr(PageOf(phys))] == (s.mm[MapNr(PageOf(phys))] + 1) % 256)
  {
    ShareFromShares(s, high, DirOffset(address) + DirOffset(pStart), DirOffset(address) + DirOffset(curStart), address);
  }

  /** `TryToShareShares` for the directory entries at `fromDir` and `toDir`. */
  lemma ShareFromShares(s: St, high: int, fromDir: int, toDir: int, address: u32)
    requires Counts(s.mm) && high <= MEM_END && 0 <= toDir <= 0x1ff8
    requires EntryAt(s.ram, fromDir, address).Some? ==>
               var fp := EntryAt(s.ram, fromDir, address).value;
               fp >= LOW_MEM && At(s.mm, MapNr(fp)) != 0 && At(s.mm, MapNr(PageOf(Read(s.ram, fp)))) != 0
    ensures var r := ShareFrom(s, high, fromDir, toDir, address);
            (r.Ok? && r.r == 0 ==> r.s == s) &&
            (r.Ok? && r.r == 1 ==>
               var fp := EntryAt(s.ram, fromDir, address).value;
               var phys := Read(s.ram, fp);
               var tpe := EntryAt(r.s.ram, toDir, address);
               Present(phys) && !Dirty(phys) && LOW_MEM <= PageOf(phys) < high &&
               tpe.Some? && Read(r.s.ram, tpe.value) == ReadOnly(phys) && Read(r.s.ram, fp) == ReadOnly(phys) &&
               r.s.mm[MapNr(PageOf(phys))] == (s.mm[MapNr(PageOf(phys))] + 1) % 256)
  {
    match EntryAt(s.ram, fromDir, address)
    case None =>
    case Some(fp) =>
      var phys := Read(s.ram, fp);
      var pa := PageOf(phys);
      if Present(phys) && !Dirty(phys) && LOW_MEM <= pa < high {
        ShareIntoShares(s, fp, pa, toDir, address);
      }
  }

  /** `ShareInto` leaves the destination entry and the source entry equal to the read-only source entry and counts one more reference. */
  lemma ShareIntoShares(s: St, fp: int, pa: int, toDir: int, address: u32)
    requires Counts(s.mm) && Present(Read(s.ram, fp)) && LOW_MEM <= pa < MEM_END && pa % 4096 == 0 && fp >= 0
    requires fp >= LOW_MEM && At(s.mm, MapNr(fp)) != 0 && s.mm[MapNr(pa)] != 0
    requires 0 <= toDir <= 0x1ff8
    ensures var r := ShareInto(s, fp, pa, toDir, address);
            var phys := Read(s.ram, fp);
            r.Ok? ==>
              EntryAt(r.s.ram, toDir, address).Some? &&
              Read(r.s.ram, EntryAt(r.s.ram, toDir, address).value) == ReadOnly(phys) && Read(r.s.ram, fp) == ReadOnly(phys) &&
              r.s.mm[MapNr(pa)] == (s.mm[MapNr(pa)] + 1) % 256
  {
    match EntryAt(s.ram, toDir, address)
    case Some(tpe) =>
      ShareEntryShares(s, fp, tpe, pa);
      ShareEntryKeeps(s, fp, tpe, pa, toDir);
      var r := ShareEntry(s, fp, tpe, pa);
      if r.Ok? && SameWord(toDir, fp) {
        ReadWrite(s.ram, fp, ReadOnly(Read(s.ram, fp)), toDir);
      }
    case None =>
      ShareIntoNewTable(s, fp, pa, toDir, address);
  }

  /** `try_to_share` into a table it has just allocated: the source entry survives the zero-fill and is shared. */
  lemma ShareIntoNewTable(s: St, fp: int, pa: int, toDir: int, address: u32)
    requires Counts(s.mm) && Present(Read(s.ram, fp)) && LOW_MEM <= pa < MEM_END && pa % 4096 == 0 && fp >= 0
    requires fp >= LOW_MEM && At(s.mm, MapNr(fp)) != 0 && s.mm[MapNr(pa)] != 0
    requires 0 <= toDir <= 0x1ff8
    ensures var (mm1, tp) := Take(s.mm);
            tp != 0 ==>
              var r := ShareEntry(St(mm1, Write(Zeroed(s.ram, tp), toDir, Or7(AddrWord(tp)))), fp, tp + TableOffset(address), pa);
              r.Ok? && EntryAt(r.s.ram, toDir, address) == Some(tp + TableOffset(address)) &&
              Read(r.s.ram, tp + TableOffset(address)) == ReadOnly(Read(s.ram, fp)) && Read(r.s.ram, fp) == ReadOnly(Read(s.ram, fp)) &&
              r.s.mm[MapNr(pa)] == (s.mm[MapNr(pa)] + 1) % 256
  {
    var (mm1, tp) := Take(s.mm);
    if tp != 0 {
      var ram0 := Zeroed(s.ram, tp);
      var s1 := St(mm1, Write(ram0, toDir, Or7(AddrWord(tp))));
      var tpe := tp + TableOffset(address);
      assert MapNr(tp) != MapNr(pa);
      assert !(tp <= fp < tp + 4096);
      ReadZeroed(s.ram, tp, fp);
      ReadZeroed(s.ram, tp, tpe);
      ReadWrite(ram0, toDir, Or7(AddrWord(tp)), fp);
      ReadWrite(ram0, toDir, Or7(AddrWord(tp)), toDir);
      ReadWrite(ram0, toDir, Or7(AddrWord(tp)), tpe);
      assert s1.mm[MapNr(pa)] == s.mm[MapNr(pa)];
      ShareEntryShares(s1, fp, tpe, pa);
      ShareEntryKeeps(s1, fp, tpe, pa, toDir);
    }
  }

  /** `ShareEntry` leaves both entries equal to the read-only source entry and counts one more reference. */
  lemma ShareEntryShares(s: St, fp: int, tpe: int, pa: int)
    requires Counts(s.mm) && Present(Read(s.ram, fp)) && 0 <= MapNr(pa) < PAGING_PAGES
    ensures var r := ShareEntry(s, fp, tpe, pa);
            r.Ok? ==> Read(r.s.ram, tpe) == ReadOnly(Read(s.ram, fp)) && Read(r.s.ram, fp) == ReadOnly(Read(s.ram, fp)) &&
                      r.s.mm[MapNr(pa)] == (s.mm[MapNr(pa)] + 1) % 256
  {
    var v := ReadOnly(Read(s.ram, fp));
    var ram1 := Write(s.ram, fp, v);
    ReadWrite(s.ram, fp, v, fp);
    ReadWrite(s.ram, fp, v, tpe);
    ReadWrite(ram1, tpe, v, tpe);
    ReadWrite(ram1, tpe, v, fp);
  }

  /** `ShareEntry` stores only to the two entries, so a present directory entry stays put. */
  lemma ShareEntryKeeps(s: St, fp: int, tpe: int, pa: int, a: int)
    requires Counts(s.mm) && Present(Read(s.ram, fp)) && Present(Read(s.ram, a))
    ensures var r := ShareEntry(s, fp, tpe, pa);
            r.Ok? && !SameWord(a, fp) ==> Read(r.s.ram, a) == Read(s.ram, a)
    ensures var r := ShareEntry(s, fp, tpe, pa);
            r.Ok? ==> Present(Read(r.s.ram, a))
  {
    var v := ReadOnly(Read(s.ram, fp));
    var ram1 := Write(s.ram, fp, v);
    ReadWrite(s.ram, fp, v, a);
    ReadWrite(s.ram, fp, v, tpe);
    ReadWrite(ram1, tpe, Read(ram1, fp), a);
  }

  /**
   * The memory manager's state: `mem_map[]`, HIGH_MEMORY and the contents
   * of physical memory.
   */
  class Mem {
    var memMap: seq<int>
    var high: int
    var ram: map<int, Word>

    /** The counts are `unsigned char`s over the 3840 frames above LOW_MEM, and HIGH_MEMORY stays within them. */
    ghost predicate Valid()
      reads this
    {
      Counts(memMap) && high <= MEM_END
    }

    /**
     * `get_free_page()`: the highest frame whose count is 0 gets count 1
     * and is zero-filled, and its address is returned; 0 when none is free.
     */
    method GetFreePage() returns (addr: int)
      requires Valid()
      modifies this
      ensures Valid() && (memMap, addr) == Take(old(memMap)) && high == old(high)
      ensures addr != 0 ==> ram == Zeroed(old(ram), addr)
      ensures addr == 0 ==> ram == old(ram)
    {
      var i := PAGING_PAGES - 1;
      while i >= 0 && memMap[i] != 0
        invariant -1 <= i < PAGING_PAGES
        invariant LastFree(memMap, |memMap|) == LastFree(memMap, i + 1)
      {
        i := i - 1;
      }
      if i < 0 {
        return 0;
      }
      addr := LOW_MEM + i * 4096;
      memMap := memMap[i := 1];
      ram := Zeroed(ram, addr);
    }

    /** `free_page(addr)`, as `Drop` says; a fatal call changes nothing. */
    method FreePage(addr: int) returns (fatal: bool)
      requires Valid()
      modifies this
      ensures Valid() && fatal == Drop(old(memMap), high, addr).None?
      ensures !fatal ==> memMap == Drop(old(memMap), high, addr).value
      ensures fatal ==> memMap == old(memMap)
      ensures ram == old(ram) && high == old(high)
    {
      if addr < LOW_MEM {
        return false;
      }
      if addr >= high {
        return true;
      }
      var nr := MapNr(addr);
      if memMap[nr] != 0 {
        memMap := memMap[nr := memMap[nr] - 1];
        return false;
      }
      memMap := memMap[nr := 0];
      fatal := true;
    }

    /**
     * `mem_init(start_mem, end_mem)`: HIGH_MEMORY becomes `end`, every
     * frame is USED except those of [start, end), which are free.
     */
    method MemInit(start: int, end: int)
      requires Valid()
      requires InitCount(start, end) == 0 || (LOW_MEM <= start && MapNr(start) + InitCount(start, end) <= PAGING_PAGES)
      requires end <= MEM_END
      modifies this
      ensures Valid() && high == end && memMap == InitialMap(start, InitCount(start, end))
      ensures ram == old(ram)
    {
      high := end;
      var mm := memMap;
      var i := 0;
      while i < PAGING_PAGES
        invariant 0 <= i <= PAGING_PAGES && |mm| == PAGING_PAGES
        invariant forall j :: 0 <= j < i ==> mm[j] == USED
      {
        mm := mm[i := USED];
        i := i + 1;
      }
      var n := InitCount(start, end);
      if n > 0 {
        i := MapNr(start);
        var left := n;
        while left > 0
          invariant 0 <= left <= n && i == MapNr(start) + (n - left) && |mm| == PAGING_PAGES
          invariant forall j :: 0 <= j < PAGING_PAGES ==> mm[j] == if MapNr(start) <= j < i then 0 else USED
        {
          mm := mm[i := 0];
          i := i + 1;
          left := left - 1;
        }
      }
      memMap := mm;
    }

    /**
     * `free_page_tables(from, size)`: fatal for a `from` off a 4 MB
     * boundary or 0; otherwise the directory entries covering `size`
     * bytes from `from` are walked as `FreeDirs` says.
     */
    method FreePageTables(from: u32, size: u32) returns (fatal: bool)
      requires Valid()
      modifies this
      ensures Valid() && high == old(high)
      ensures from % 0x40_0000 != 0 || from == 0 ==> fatal && memMap == old(memMap) && ram == old(ram)
      ensures from % 0x40_0000 == 0 && from != 0 ==>
                var r := FreeDirs(St(old(memMap), old(ram)), high, DirOffset(from), Blocks(size));
                fatal == r.None? && (!fatal ==> St(memMap, ram) == r.value)
    {
      if from % 0x40_0000 != 0 || from == 0 {
        return true;
      }
      var r := ClearDirs(St(memMap, ram), high, DirOffset(from), Blocks(size));
      if r.None? {
        return true;
      }
      memMap, ram := r.value.mm, r.value.ram;
      fatal := false;
    }

    /**
     * `copy_page_tables(from, to, size)`: fatal for a `from` or `to` off a
     * 4 MB boundary or for a destination entry already present; otherwise
     * the directory entries covering `size` bytes are copied as `CopyDirs`
     * says, 160 words per table when `from` is 0 and 1024 otherwise, and
     * -1 is returned when a table page cannot be had.
     */
    method CopyPageTables(from: u32, to: u32, size: u32) returns (r: int, fatal: bool)
      requires Valid()
      modifies this
      ensures Valid() && high == old(high)
      ensures from % 0x40_0000 != 0 || to % 0x40_0000 != 0 ==> fatal && memMap == old(memMap) && ram == old(ram)
      ensures from % 0x40_0000 == 0 && to % 0x40_0000 == 0 ==>
                var c := CopyDirs(St(old(memMap), old(ram)), DirOffset(from), DirOffset(to), Blocks(size), if from == 0 then 0xA0 else 1024);
                fatal == c.Broken? &&
                (c.Copied? ==> r == 0 && St(memMap, ram) == c.s) &&
                (c.NoMemory? ==> r == -1 && St(memMap, ram) == c.s)
    {
      if from % 0x40_0000 != 0 || to % 0x40_0000 != 0 {
        return 0, true;
      }
      var c := ShareDirs(St(memMap, ram), DirOffset(from), DirOffset(to), Blocks(size), if from == 0 then 0xA0 else 1024);
      if c.Broken? {
        return 0, true;
      }
      memMap, ram := c.s.mm, c.s.ram;
      r, fatal := if c.Copied? then 0 else -1, false;
    }

    /** `put_page(page, address)`, as `Put` says. */
    method PutPage(page: int, address: u32) returns (r: int)
      requires Valid() && 0 <= page && page % 4096 == 0
      modifies this
      ensures Valid() && high == old(high)
      ensures (St(memMap, ram), r) == Put(St(old(memMap), old(ram)), page, address)
    {
      var te := Lookup(ram, address);
      if te.None? {
        var tmp := GetFreePage();
        if tmp == 0 {
          return 0;
        }
        ram := Write(ram, DirOffset(address), Or7(AddrWord(tmp)));
        te := Some(tmp + TableOffset(address));
      }
      ram := Write(ram, te.value, Or7(AddrWord(page)));
      r := page;
    }

    /** `un_wp_page(te)`, as `UnWp` says; `oom` when no page could be had, and then nothing has changed. */
    method UnWpPage(te: int) returns (oom: bool)
      requires Valid()
      modifies this
      ensures Valid() && high == old(high)
      ensures var o := UnWp(St(old(memMap), old(ram)), te);
              oom == o.Oom? && (o.Ok? ==> St(memMap, ram) == o.s) && (oom ==> memMap == old(memMap) && ram == old(ram))
    {
      var e := Read(ram, te);
      var pg := PageOf(e);
      if pg >= LOW_MEM && At(memMap, MapNr(pg)) == 1 {
        ram := Write(ram, te, MakeWritable(e));
        return false;
      }
      var nw := GetFreePage();
      if nw == 0 {
        return true;
      }
      if pg >= LOW_MEM {
        memMap := Dec(memMap, MapNr(pg));
      }
      ram := Write(ram, te, Or7(AddrWord(nw)));
      CopyPageWords(pg, nw);
      oom := false;
    }

    /** `copy_page(from, to)`: the 1024 `movsl` steps, one word at a time. */
    method CopyPageWords(from: int, to: int)
      requires Valid()
      modifies this
      ensures Valid() && memMap == old(memMap) && high == old(high)
      ensures ram == CopyPage(old(ram), from, to)
    {
      var src := ram;
      var n := 0;
      while n < 1024
        invariant 0 <= n <= 1024
        invariant memMap == old(memMap) && high == old(high)
        invariant ram == PageCopy(src, src, from, to, n)
      {
        ram := Write(ram, to + 4 * n, Read(src, from + 4 * n));
        n := n + 1;
      }
    }

    /** `write_verify(address)`, as `WriteVerify` says. */
    method WriteVerifyPage(address: u32) returns (oom: bool)
      requires Valid()
      modifies this
      ensures Valid() && high == old(high)
      ensures var o := WriteVerify(St(old(memMap), old(ram)), address);
              oom == o.Oom? && (o.Ok? ==> St(memMap, ram) == o.s) && (oom ==> memMap == old(memMap) && ram == old(ram))
    {
      var te := Lookup(ram, address);
      if te.None? {
        return false;
      }
      if Read(ram, te.value).flags & 3 == 1 {
        oom := UnWpPage(te.value);
      } else {
        oom := false;
      }
    }

    /**
     * `try_to_share(address, p)`, with `p`'s and the current task's code
     * bases, as `TryShare` says: 1 when the page was shared, 0 when not;
     * `oom` when no table page could be had, and then nothing has changed;
     * `fatal` when the destination entry already existed.
     */
    method TryToShare(address: u32, pStart: u32, curStart: u32) returns (r: int, oom: bool, fatal: bool)
      requires Valid()
      modifies this
      ensures Valid() && high == old(high)
      ensures var o := TryShare(St(old(memMap), old(ram)), high, address, pStart, curStart);
              oom == o.Oom? && fatal == o.Fatal? && (o.Ok? ==> St(memMap, ram) == o.s && r == o.r) &&
              (oom ==> memMap == old(memMap) && ram == old(ram))
    {
      var fromDir := DirOffset(address) + DirOffset(pStart);
      var toDir := DirOffset(address) + DirOffset(curStart);
      var f := EntryAt(ram, fromDir, address);
      if f.None? {
        return 0, false, false;
      }
      var fp := f.value;
      var phys := Read(ram, fp);
      if !Present(phys) || Dirty(phys) {
        return 0, false, false;
      }
      var pa := PageOf(phys);
      if pa >= high || pa < LOW_MEM {
        return 0, false, false;
      }
      r, oom, fatal := ShareIntoIn(fp, pa, toDir, address);
    }

    /** The second half of `try_to_share`, as `ShareInto` states it. */
    method ShareIntoIn(fp: int, pa: int, toDir: int, address: u32) returns (r: int, oom: bool, fatal: bool)
      requires Valid()
      modifies this
      ensures Valid() && high == old(high)
      ensures var o := ShareInto(St(old(memMap), old(ram)), fp, pa, toDir, address);
              oom == o.Oom? && fatal == o.Fatal? && (o.Ok? ==> St(memMap, ram) == o.s && r == o.r) &&
              (oom ==> memMap == old(memMap) && ram == old(ram))
    {
      var t := EntryAt(ram, toDir, address);
      if t.None? {
        var tp := GetFreePage();
        if tp == 0 {
          return 0, true, false;
        }
        ram := Write(ram, toDir, Or7(AddrWord(tp)));
        t := Some(tp + TableOffset(address));
      }
      if Present(Read(ram, t.value)) {
        return 0, false, true;
      }
      ram := Write(ram, fp, ReadOnly(Read(ram, fp)));
      ram := Write(ram, t.value, Read(ram, fp));
      memMap := Inc(memMap, MapNr(pa));
      r, oom, fatal := 1, false, false;
    }
  }
}
