/*
 * fs/pipe.c: the pipe ring over one 4096-byte page, and `sys_pipe`.
 *
 * A pipe inode keeps the page address in `i_size`, the head in
 * `i_zone[0]` and the tail in `i_zone[1]`; `i_count` is 2 while both a
 * reader and a writer hold it. The ring is modelled as a class over the
 * page with those three values as fields. The bytes in the pipe are the
 * `PIPE_SIZE` bytes from the tail, wrapping at the end of the page.
 */
module Pipes {
  import opened Layout
  import opened Records
  import opened Tables

  /** The `n` bytes of `page` from `tail`, wrapping at the end of the page. */
  function Ring(page: seq<byte>, tail: int, n: nat): (r: seq<byte>)
    requires |page| == PAGE_SIZE
    ensures |r| == n
  {
    seq(n, i requires 0 <= i < n => page[(tail + i) % PAGE_SIZE])
  }

  function Min(a: int, b: int): (r: int) { if a < b then a else b }

  /** Advancing a position modulo the page in two steps or in one lands in the same place. */
  lemma Advance(a: int, b: int)
    ensures (a % PAGE_SIZE + b) % PAGE_SIZE == (a + b) % PAGE_SIZE
  {
    var q := a / PAGE_SIZE;
    assert a == PAGE_SIZE * q + a % PAGE_SIZE;
    assert a + b == (a % PAGE_SIZE + b) + PAGE_SIZE * q;
  }

  /**
   * Storing `d` at the head, without running past the end of the page and
   * within the free space, appends `d` to the bytes in the pipe.
   */
  lemma AppendChunk(page: seq<byte>, page': seq<byte>, head: int, tail: int, d: seq<byte>)
    requires |page| == PAGE_SIZE && |page'| == PAGE_SIZE && 0 <= head < PAGE_SIZE && 0 <= tail < PAGE_SIZE
    requires |d| <= PAGE_SIZE - 1 - PipeSize(head, tail) && head + |d| <= PAGE_SIZE
    requires forall j :: 0 <= j < PAGE_SIZE ==> page'[j] == if head <= j < head + |d| then d[j - head] else page[j]
    ensures PipeSize((head + |d|) % PAGE_SIZE, tail) == PipeSize(head, tail) + |d|
    ensures Ring(page', tail, PipeSize(head, tail) + |d|) == Ring(page, tail, PipeSize(head, tail)) + d
  {
    var size := PipeSize(head, tail);
    assert (tail + size) % PAGE_SIZE == head;
    var a := Ring(page', tail, size + |d|);
    var b := Ring(page, tail, size) + d;
    forall i | 0 <= i < size + |d|
      ensures a[i] == b[i]
    {
      var p := (tail + i) % PAGE_SIZE;
      if i < size {
        assert !(head <= p < head + |d|);
      } else {
        assert p == head + (i - size);
      }
    }
  }

  /** The head lies `PipeSize` bytes past the tail, wrapping at the end of the page. */
  lemma HeadPastTail(head: int, tail: int)
    requires 0 <= head < PAGE_SIZE && 0 <= tail < PAGE_SIZE
    ensures var size := PipeSize(head, tail);
            head == if tail + size < PAGE_SIZE then tail + size else tail + size - PAGE_SIZE
  {
    var size := PipeSize(head, tail);
    var k := (tail + size - head) / PAGE_SIZE;
    assert tail + size - head == PAGE_SIZE * k;
  }

  /** With the tail fixed, a pipe `k` bytes fuller has its head `k` bytes further on, wrapping at the end of the page. */
  lemma HeadMoved(h0: int, h: int, tail: int, k: nat)
    requires 0 <= h0 < PAGE_SIZE && 0 <= h < PAGE_SIZE && 0 <= tail < PAGE_SIZE
    requires PipeSize(h, tail) == PipeSize(h0, tail) + k
    ensures h == (h0 + k) % PAGE_SIZE
  {
    HeadPastTail(h0, tail);
    HeadPastTail(h, tail);
    assert h0 + k == h || h0 + k == h + PAGE_SIZE;
  }

  /** With the head fixed, a pipe `k` bytes emptier has its tail `k` bytes further on, wrapping at the end of the page. */
  lemma TailMoved(t0: int, t: int, head: int, k: nat)
    requires 0 <= t0 < PAGE_SIZE && 0 <= t < PAGE_SIZE && 0 <= head < PAGE_SIZE
    requires PipeSize(head, t) + k == PipeSize(head, t0)
    ensures t == (t0 + k) % PAGE_SIZE
  {
    HeadPastTail(head, t0);
    HeadPastTail(head, t);
    assert t0 + k == t || t0 + k == t + PAGE_SIZE;
  }

  /** Taking `chars` bytes at the tail, without running past the end of the page, shrinks the pipe by `chars`. */
  lemma TakeSize(head: int, tail: int, chars: nat)
    requires 0 <= head < PAGE_SIZE && 0 <= tail < PAGE_SIZE
    requires chars <= PipeSize(head, tail) && tail + chars <= PAGE_SIZE
    ensures PipeSize(head, (tail + chars) % PAGE_SIZE) == PipeSize(head, tail) - chars
  {
    HeadPastTail(head, tail);
    var size := PipeSize(head, tail);
    var t2 := (tail + chars) % PAGE_SIZE;
    assert t2 == if tail + chars < PAGE_SIZE then tail + chars else 0;
    assert head - t2 == size - chars || head - t2 == size - chars - PAGE_SIZE;
  }

  /**
   * Taking `chars` bytes at the tail, without running past the end of the
   * page, removes them from the front of the bytes in the pipe.
   */
  lemma TakeChunk(page: seq<byte>, head: int, tail: int, chars: nat)
    requires |page| == PAGE_SIZE && 0 <= head < PAGE_SIZE && 0 <= tail < PAGE_SIZE
    requires chars <= PipeSize(head, tail) && tail + chars <= PAGE_SIZE
    ensures PipeSize(head, (tail + chars) % PAGE_SIZE) == PipeSize(head, tail) - chars
    ensures Ring(page, tail, PipeSize(head, tail))[..chars] == page[tail..tail + chars]
    ensures Ring(page, (tail + chars) % PAGE_SIZE, PipeSize(head, tail) - chars) == Ring(page, tail, PipeSize(head, tail))[chars..]
  {
    TakeSize(head, tail, chars);
    var size := PipeSize(head, tail);
    var t2 := (tail + chars) % PAGE_SIZE;
    var r := Ring(page, tail, size);
    forall i | 0 <= i < chars
      ensures r[i] == page[tail + i]
    {
      assert (tail + i) % PAGE_SIZE == tail + i;
    }
    var a := Ring(page, t2, size - chars);
    forall i | 0 <= i < size - chars
      ensures a[i] == r[chars + i]
    {
      Advance(tail + chars, i);
    }
  }

  /**
   * The loop of `read_pipe` over the page's bytes: `r` bytes taken from the
   * tail in chunks of `min(4096 - tail, left, size)`, the new tail, and
   * whether the reader would sleep on an empty pipe with a writer.
   */
  method ReadRing(page: seq<byte>, head: int, tail0: int, want: int, writer: bool)
      returns (r: int, out: seq<byte>, tail: int, waits: bool)
    requires |page| == PAGE_SIZE && 0 <= head < PAGE_SIZE && 0 <= tail0 < PAGE_SIZE
    ensures 0 <= tail < PAGE_SIZE
    ensures var c0 := Ring(page, tail0, PipeSize(head, tail0));
            var k := if want <= 0 then 0 else Min(want, |c0|);
            r == k && out == c0[..k] && Ring(page, tail, PipeSize(head, tail)) == c0[k..] &&
            tail == (tail0 + k) % PAGE_SIZE && waits == (want > k && writer)
  {
    ghost var c0 := Ring(page, tail0, PipeSize(head, tail0));
    var left := want;
    r, out, tail := 0, [], tail0;
    while left > 0
      invariant 0 <= tail < PAGE_SIZE
      invariant 0 <= r <= |c0| && left == want - r && out == c0[..r] && Ring(page, tail, PipeSize(head, tail)) == c0[r..]
      invariant want > 0 ==> left >= 0
      invariant want <= 0 ==> r == 0
    {
      var size := PipeSize(head, tail);
      if size == 0 {
        TailMoved(tail0, tail, head, r);
        return r, out, tail, writer;
      }
      var chars := Min(Min(PAGE_SIZE - tail, left), size);
      TakeChunk(page, head, tail, chars);
      assert c0[..r + chars] == c0[..r] + c0[r..][..chars];
      left, r := left - chars, r + chars;
      out := out + page[tail..tail + chars];
      tail := (tail + chars) % PAGE_SIZE;
    }
    TailMoved(tail0, tail, head, r);
    waits := false;
  }

  // sys_pipe

  /** The indices below `i` whose value is 0, in increasing order. */
  function FreeBelow(s: seq<int>, i: nat): (r: seq<int>)
    requires i <= |s|
    ensures |r| <= i
    ensures forall k :: 0 <= k < |r| ==> 0 <= r[k] < i && s[r[k]] == 0
    decreases i
  {
    if i == 0 then [] else FreeBelow(s, i - 1) + (if s[i - 1] == 0 then [i - 1] else [])
  }

  /** `FreeBelow` is increasing and misses no index whose value is 0. */
  lemma {:induction false} FreeBelowExact(s: seq<int>, i: nat)
    requires i <= |s|
    ensures forall a, b :: 0 <= a < b < |FreeBelow(s, i)| ==> FreeBelow(s, i)[a] < FreeBelow(s, i)[b]
    ensures forall k :: 0 <= k < i && s[k] == 0 ==> k in FreeBelow(s, i)
    decreases i
  {
    if i > 0 {
      FreeBelowExact(s, i - 1);
    }
  }

  /** The first two zero indices come in order. */
  lemma {:induction false} FirstTwoIncreasing(s: seq<int>, i: nat)
    requires i <= |s|
    ensures |FreeBelow(s, i)| >= 2 ==> FreeBelow(s, i)[0] < FreeBelow(s, i)[1]
    decreases i
  {
    if i > 0 {
      FirstTwoIncreasing(s, i - 1);
    }
  }

  /** Scanning further only adds indices at the end. */
  lemma {:induction false} FreeBelowPrefix(s: seq<int>, i: nat, n: nat)
    requires i <= n <= |s|
    ensures FreeBelow(s, i) <= FreeBelow(s, n)
    decreases n - i
  {
    if i < n {
      FreeBelowPrefix(s, i, n - 1);
    }
  }

  /** The first two zero indices of `s`, or all of them when there are fewer. */
  function FirstTwo(s: seq<int>): (r: seq<int>)
    ensures |r| <= 2 && r <= FreeBelow(s, |s|)
    ensures |r| < 2 ==> r == FreeBelow(s, |s|)
  {
    var z := FreeBelow(s, |s|);
    if |z| <= 2 then z else z[..2]
  }

  /** The `f_count`s of the file table. */
  function FileCounts(files: seq<File>): (c: seq<int>)
    ensures |c| == |files|
  {
    seq(|files|, k requires 0 <= k < |files| => files[k].count)
  }

  /** The fd slots of `filp`: 0 where the slot is empty. */
  function FdHoles(filp: seq<int>): (c: seq<int>)
    ensures |c| == |filp|
  {
    seq(|filp|, k requires 0 <= k < |filp| => if filp[k] == NONE then 0 else 1)
  }

  /**
   * The first loop of `sys_pipe`: the first two file slots with count 0
   * are claimed (count 1); when only one is found it is released again.
   */
  method ClaimFiles(files0: seq<File>) returns (files: seq<File>, f: seq<int>)
    ensures f == FirstTwo(FileCounts(files0)) && (|f| == 2 ==> 0 <= f[0] < f[1] < |files0|)
    ensures |f| == 2 ==> files == files0[f[0] := files0[f[0]].(count := 1)][f[1] := files0[f[1]].(count := 1)]
    ensures |f| < 2 ==> files == files0
  {
    files, f := files0, [];
    var i := 0;
    while |f| < 2 && i < |files0|
      invariant FileScan(files0, files, f, i)
    {
      FileScanStep(files0, files, f, i);
      if files[i].count == 0 {
        files := files[i := files[i].(count := files[i].count + 1)];
        f := f + [i];
      }
      i := i + 1;
    }
    ClaimedFiles(files0, files, f, i);
    if |f| == 1 {
      files := files[f[0] := files[f[0]].(count := 0)];
    }
  }

  /** The state of the first loop of `sys_pipe` after `i` slots. */
  ghost predicate FileScan(files0: seq<File>, files: seq<File>, f: seq<int>, i: nat)
  {
    i <= |files0| && |files| == |files0| && f == FreeBelow(FileCounts(files0), i) && |f| <= 2 &&
    forall k :: 0 <= k < |files0| ==> files[k] == if k in f then files0[k].(count := 1) else files0[k]
  }

  lemma FileScanStep(files0: seq<File>, files: seq<File>, f: seq<int>, i: nat)
    requires FileScan(files0, files, f, i) && |f| < 2 && i < |files0|
    ensures files[i] == files0[i]
    ensures files[i].count == 0 ==>
              FileScan(files0, files[i := files[i].(count := files[i].count + 1)], f + [i], i + 1)
    ensures files[i].count != 0 ==> FileScan(files0, files, f, i + 1)
  {
    var c := FileCounts(files0);
    assert forall k :: 0 <= k < |f| ==> f[k] < i;
    assert c[i] == files0[i].count;
  }

  /** A scan that stopped at two zero indices, or at the end, found the first two. */
  lemma FirstTwoFound(c: seq<int>, i: nat, r: seq<int>)
    requires i <= |c| && r == FreeBelow(c, i) && |r| <= 2 && (|r| < 2 ==> i == |c|)
    ensures r == FirstTwo(c) && (|r| == 2 ==> r[0] < r[1])
  {
    FreeBelowPrefix(c, i, |c|);
    FirstTwoIncreasing(c, i);
  }

  /** The file table after the first loop, as updates of the one before it. */
  lemma ClaimedFiles(files0: seq<File>, files: seq<File>, f: seq<int>, i: nat)
    requires FileScan(files0, files, f, i) && (|f| < 2 ==> i == |files0|)
    ensures f == FirstTwo(FileCounts(files0)) && (|f| == 2 ==> 0 <= f[0] < f[1] < |files0|)
    ensures |f| == 2 ==> files == files0[f[0] := files0[f[0]].(count := 1)][f[1] := files0[f[1]].(count := 1)]
    ensures |f| == 1 ==> files[f[0] := files[f[0]].(count := 0)] == files0
    ensures |f| == 0 ==> files == files0
  {
    FirstTwoFound(FileCounts(files0), i, f);
    if |f| == 2 {
      TwoClaimed(files0, files, f, i);
    } else if |f| == 1 {
      OneClaimed(files0, files, f, i);
    } else {
      forall k | 0 <= k < |files0| ensures files[k] == files0[k] {
        assert k !in f;
      }
    }
  }

  /** Two claimed slots are two single-slot updates of the table. */
  lemma TwoClaimed(files0: seq<File>, files: seq<File>, f: seq<int>, i: nat)
    requires FileScan(files0, files, f, i) && |f| == 2 && 0 <= f[0] < f[1]
    ensures files == files0[f[0] := files0[f[0]].(count := 1)][f[1] := files0[f[1]].(count := 1)]
  {
    var g := files0[f[0] := files0[f[0]].(count := 1)][f[1] := files0[f[1]].(count := 1)];
    forall k | 0 <= k < |files0| ensures files[k] == g[k] {
      assert (k in f) == (k == f[0] || k == f[1]);
    }
  }

  /** Releasing the one claimed slot gives the old table back. */
  lemma OneClaimed(files0: seq<File>, files: seq<File>, f: seq<int>, i: nat)
    requires FileScan(files0, files, f, i) && |f| == 1
    ensures files[f[0] := files[f[0]].(count := 0)] == files0
  {
    var c := FileCounts(files0);
    assert c[f[0]] == files0[f[0]].count == 0;
    var g := files[f[0] := files[f[0]].(count := 0)];
    forall k | 0 <= k < |files0| ensures g[k] == files0[k] {
      assert (k in f) == (k == f[0]);
    }
  }

  /**
   * The second loop of `sys_pipe`: the first two empty fds receive the two
   * file slots; when only one is found it is emptied again.
   */
  method ClaimFds(filp0: seq<int>, f: seq<int>) returns (filp: seq<int>, fd: seq<int>)
    requires |f| == 2
    ensures fd == FirstTwo(FdHoles(filp0)) && (|fd| == 2 ==> 0 <= fd[0] < fd[1] < |filp0|)
    ensures |fd| == 2 ==> filp == filp0[fd[0] := f[0]][fd[1] := f[1]]
    ensures |fd| < 2 ==> filp == filp0
  {
    filp, fd := filp0, [];
    var i := 0;
    while |fd| < 2 && i < |filp0|
      invariant FdScan(filp0, f, filp, fd, i)
    {
      FdScanStep(filp0, f, filp, fd, i);
      if filp[i] == NONE {
        filp := filp[i := f[|fd|]];
        fd := fd + [i];
      }
      i := i + 1;
    }
    ClaimedFds(filp0, f, filp, fd, i);
    if |fd| == 1 {
      filp := filp[fd[0] := NONE];
    }
  }

  /** The state of the second loop of `sys_pipe` after `i` fds. */
  ghost predicate FdScan(filp0: seq<int>, f: seq<int>, filp: seq<int>, fd: seq<int>, i: nat)
  {
    i <= |filp0| && |filp| == |filp0| && fd == FreeBelow(FdHoles(filp0), i) && |fd| <= 2 && |f| == 2 &&
    (forall k :: 0 <= k < |filp0| && k !in fd ==> filp[k] == filp0[k]) &&
    (|fd| >= 1 ==> filp[fd[0]] == f[0]) &&
    (|fd| == 2 ==> filp[fd[1]] == f[1])
  }

  lemma FdScanStep(filp0: seq<int>, f: seq<int>, filp: seq<int>, fd: seq<int>, i: nat)
    requires FdScan(filp0, f, filp, fd, i) && |fd| < 2 && i < |filp0|
    ensures filp[i] == filp0[i]
    ensures filp[i] == NONE ==> FdScan(filp0, f, filp[i := f[|fd|]], fd + [i], i + 1)
    ensures filp[i] != NONE ==> FdScan(filp0, f, filp, fd, i + 1)
  {
    var c := FdHoles(filp0);
    assert forall k :: 0 <= k < |fd| ==> fd[k] < i;
    assert c[i] == 0 <==> filp0[i] == NONE;
  }

  /** The fd slots after the second loop, as updates of the ones before it. */
  lemma ClaimedFds(filp0: seq<int>, f: seq<int>, filp: seq<int>, fd: seq<int>, i: nat)
    requires FdScan(filp0, f, filp, fd, i) && (|fd| < 2 ==> i == |filp0|)
    ensures fd == FirstTwo(FdHoles(filp0)) && (|fd| == 2 ==> fd[0] < fd[1])
    ensures |fd| == 2 ==> filp == filp0[fd[0] := f[0]][fd[1] := f[1]]
    ensures |fd| == 1 ==> filp[fd[0] := NONE] == filp0
    ensures |fd| == 0 ==> filp == filp0
  {
    var c := FdHoles(filp0);
    FirstTwoFound(c, i, fd);
    if |fd| == 2 {
      assert filp == filp0[fd[0] := f[0]][fd[1] := f[1]];
    } else if |fd| == 1 {
      assert c[fd[0]] == 0;
      assert filp[fd[0] := NONE] == filp0;
    } else {
      assert filp == filp0;
    }
  }

  /**
   * `sys_pipe(fildes)` for the task `t`, with `page` the page
   * `get_free_page` hands `get_pipe_inode` (0 when none): two file slots,
   * two fds and a pipe inode are claimed; a shortage of any of them
   * releases whatever was claimed and returns -1. On success the read end
   * `fd[0]` has mode 1 and the write end `fd[1]` mode 2, both at position 0
   * on the one pipe inode.
   */
  method SysPipe(fs: FileSystem, t: Task, page: u32) returns (r: int, t': Task, fd: seq<int>)
    requires fs.Valid() && t.Valid()
    requires forall k :: 0 <= k < NR_INODE && fs.inodes[k].count == 0 && fs.inodes[k].dirt ==> fs.Reachable(fs.inodes[k])
    modifies fs
    ensures fs.Valid() && fs.supers == old(fs.supers)
    ensures r == 0 || r == -1
    ensures var f := FirstTwo(FileCounts(old(fs.files)));
            var d := FirstTwo(FdHoles(t.filp));
            (r == -1 ==> fs.files == old(fs.files) && t' == t) &&
            (r == 0 ==>
               |f| == 2 && |d| == 2 && fd == d && t' == t.(filp := t.filp[d[0] := f[0]][d[1] := f[1]]) &&
               var p := fs.files[f[0]].inode;
               0 <= p < NR_INODE && old(fs.inodes[p]).count == 0 &&
               fs.inodes[p] == ZERO_INODE.(d := ZERO_DINODE.(size := page), count := 2, pipe := true) &&
               fs.files == old(fs.files)[f[0] := File(1, old(fs.files)[f[0]].flags, 1, p, 0)]
                                        [f[1] := File(2, old(fs.files)[f[1]].flags, 1, p, 0)])
    ensures |FirstTwo(FileCounts(old(fs.files)))| < 2 || |FirstTwo(FdHoles(t.filp))| < 2 ==> fs.inodes == old(fs.inodes)
  {
    t', fd := t, [];
    var files, f := ClaimFiles(fs.files);
    if |f| < 2 {
      return -1, t, fd;
    }
    var filp, d := ClaimFds(t.filp, f);
    if |d| < 2 {
      return -1, t, fd;
    }
    var p := OpenEnds(fs, files, f[0], f[1], page);
    if p == NONE {
      return -1, t, fd;
    }
    OpenedEnds(old(fs.files), f[0], f[1], p);
    t' := t.(filp := filp);
    r, fd := 0, d;
  }

  /**
   * The end of `sys_pipe`, with `files` the file table holding the two
   * claimed slots `a` and `b`: `get_pipe_inode`, and on success the two
   * slots become the read and the write end of the new pipe inode. The
   * claimed counts are stored with the rest of the two slots:
   * `get_pipe_inode` does not read the file table, and on its failure the
   * counts are set back to 0, i.e. the table is left as it was.
   */
  method OpenEnds(fs: FileSystem, files: seq<File>, a: int, b: int, page: u32) returns (p: int)
    requires fs.Valid() && |files| == NR_FILE && 0 <= a < b < NR_FILE
    requires forall k :: 0 <= k < NR_INODE && fs.inodes[k].count == 0 && fs.inodes[k].dirt ==> fs.Reachable(fs.inodes[k])
    modifies fs
    ensures fs.Valid() && fs.supers == old(fs.supers)
    ensures p == NONE ==> fs.files == old(fs.files)
    ensures p != NONE ==>
              0 <= p < NR_INODE && old(fs.inodes[p]).count == 0 &&
              fs.inodes[p] == ZERO_INODE.(d := ZERO_DINODE.(size := page), count := 2, pipe := true) &&
              fs.files == files[a := files[a].(inode := p, pos := 0, mode := 1)][b := files[b].(inode := p, pos := 0, mode := 2)]
  {
    p := fs.GetPipeInode(page);
    if p != NONE {
      fs.files := files[a := files[a].(inode := p, pos := 0, mode := 1)][b := files[b].(inode := p, pos := 0, mode := 2)];
    }
  }

  /** The two claimed file slots, filled in as the read and the write end of pipe inode `p`. */
  lemma OpenedEnds(files0: seq<File>, a: int, b: int, p: int)
    requires 0 <= a < b < |files0|
    ensures var files := files0[a := files0[a].(count := 1)][b := files0[b].(count := 1)];
            files[a := files[a].(inode := p, pos := 0, mode := 1)][b := files[b].(inode := p, pos := 0, mode := 2)] ==
            files0[a := File(1, files0[a].flags, 1, p, 0)][b := File(2, files0[b].flags, 1, p, 0)]
  {
  }

  /** A pipe's page and the two positions into it. */
  class Pipe {
    const page: array<byte>
    var head: int
    var tail: int
    /** `i_count`: 2 while both ends are open. */
    var count: int

    ghost predicate Valid()
      reads this
    {
      page.Length == PAGE_SIZE && 0 <= head < PAGE_SIZE && 0 <= tail < PAGE_SIZE
    }

    /** The bytes in the pipe, oldest first. */
    ghost function Contents(): (c: seq<byte>)
      reads this, page
      requires Valid()
      ensures |c| == PipeSize(head, tail)
    {
      Ring(page[..], tail, PipeSize(head, tail))
    }

    /**
     * `read_pipe(inode, buf, count)`: at most `count` bytes are taken from
     * the front of the pipe, a chunk of `min(4096 - tail, count, size)` at
     * a time. When the pipe runs dry with bytes still wanted, the call
     * returns what it read if the writer is gone (`i_count != 2`);
     * otherwise the reader would sleep (`waits`), having read that much.
     */
    method ReadPipe(want: int) returns (r: int, out: seq<byte>, waits: bool)
      requires Valid()
      modifies this
      ensures Valid() && head == old(head) && count == old(count) && page[..] == old(page[..])
      ensures var k := if want <= 0 then 0 else Min(want, |old(Contents())|);
              r == k && out == old(Contents())[..k] && Contents() == old(Contents())[k..] &&
              tail == (old(tail) + k) % PAGE_SIZE &&
              waits == (want > k && count == 2)
    {
      var t;
      r, out, t, waits := ReadRing(page[..], head, tail, want, count == 2);
      tail := t;
    }

    /**
     * `write_pipe(inode, buf, count)` with the `count` bytes of `data`: they
     * are appended at the head, a chunk of `min(4096 - head, count, free)`
     * at a time, while there is room. When the pipe fills with bytes left
     * over, a pipe without a reader raises SIGPIPE and returns what was
     * written, or -1 if nothing; otherwise the writer would sleep (`waits`).
     */
    method WritePipe(data: seq<byte>) returns (r: int, sigpipe: bool, waits: bool)
      requires Valid()
      modifies this, page
      ensures Valid() && tail == old(tail) && count == old(count)
      ensures var k := Min(|data|, PAGE_SIZE - 1 - |old(Contents())|);
              Contents() == old(Contents()) + data[..k] && head == (old(head) + k) % PAGE_SIZE &&
              (k == |data| ==> r == k && !sigpipe && !waits) &&
              (k < |data| && count != 2 ==> sigpipe && !waits && r == (if k != 0 then k else -1)) &&
              (k < |data| && count == 2 ==> !sigpipe && waits && r == k)
    {
      ghost var c0 := Contents();
      var written := 0;
      while written < |data|
        invariant Valid() && tail == old(tail) && count == old(count)
        invariant 0 <= written <= |data| && written <= PAGE_SIZE - 1 - |c0|
        invariant Contents() == c0 + data[..written]
      {
        var size := PAGE_SIZE - 1 - PipeSize(head, tail);
        if size == 0 {
          HeadMoved(old(head), head, tail, written);
          if count != 2 {
            return if written != 0 then written else -1, true, false;
          }
          return written, false, true;
        }
        var chars := Min(Min(PAGE_SIZE - head, |data| - written), size);
        Push(data[written..written + chars]);
        assert data[..written + chars] == data[..written] + data[written..written + chars];
        written := written + chars;
      }
      HeadMoved(old(head), head, tail, written);
      r, sigpipe, waits := written, false, false;
    }

    /**
     * One pass of `write_pipe`'s loop: `d`, which fits before the end of
     * the page and in the free space, is appended at the head.
     */
    method Push(d: seq<byte>)
      requires Valid() && head + |d| <= PAGE_SIZE && |d| <= PAGE_SIZE - 1 - PipeSize(head, tail)
      modifies this, page
      ensures Valid() && tail == old(tail) && count == old(count)
      ensures Contents() == old(Contents()) + d && head == (old(head) + |d|) % PAGE_SIZE
    {
      ghost var before := page[..];
      Store(head, d);
      AppendChunk(before, page[..], head, tail, d);
      head := (head + |d|) % PAGE_SIZE;
    }

    /** The copy loop of `write_pipe`: `d` goes into the page from `at`, and no other byte changes. */
    method Store(at: int, d: seq<byte>)
      requires Valid() && 0 <= at && at + |d| <= PAGE_SIZE
      modifies page
      ensures forall j :: 0 <= j < PAGE_SIZE ==> page[j] == if at <= j < at + |d| then d[j - at] else old(page[j])
    {
      var n := 0;
      while n < |d|
        invariant 0 <= n <= |d|
        invariant forall j :: 0 <= j < PAGE_SIZE ==> page[j] == if at <= j < at + n then d[j - at] else old(page[j])
      {
        page[at + n] := d[n];
        n := n + 1;
      }
    }
  }
}
