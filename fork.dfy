/*
 * kernel/fork.c: the choice of a fresh pid and an empty task slot
 * (`find_empty_process`), the address space a new task gets (`copy_mem`),
 * the fields `copy_process` resets in the child and the reference counts
 * it raises, and the page loop of `verify_area`.
 */
module Fork {
  import opened Layout
  import opened Records
  import opened Desc
  import opened Tasks
  import opened Tables

  // ---------------------------------------------------------------------
  // Pids
  // ---------------------------------------------------------------------

  /** `++last_pid`, where the step past the largest `long` wraps negative and is turned into 1. */
  function NextPid(p: int): (n: int)
    requires 0 <= p <= MAX_PID
    ensures 1 <= n <= MAX_PID
    ensures n == p + 1 || (p == MAX_PID && n == 1)
  {
    if p == MAX_PID then 1 else p + 1
  }

  /** How many `++last_pid` steps lead from `p0` to `x`, on the cycle 1 .. MAX_PID. */
  function Steps(p0: int, x: int): (n: int)
    requires 0 <= p0 <= MAX_PID && 0 <= x <= MAX_PID
    ensures 0 <= n < MAX_PID + 1
  {
    if x == p0 then 0 else if x > p0 then x - p0 else x + MAX_PID - p0
  }

  /** One more step is one more on the count, until the cycle closes. */
  lemma StepsNext(p0: int, x: int)
    requires 0 <= p0 <= MAX_PID && 0 <= x <= MAX_PID && (x == 0 ==> p0 == 0)
    requires Steps(p0, x) + 1 < MAX_PID
    ensures Steps(p0, NextPid(x)) == Steps(p0, x) + 1
  {
  }

  /** Distinct pids lie at distinct distances from `p0`. */
  lemma StepsInjective(p0: int, x: int, y: int)
    requires 0 <= p0 <= MAX_PID && 1 <= x <= MAX_PID && 1 <= y <= MAX_PID
    requires Steps(p0, x) == Steps(p0, y)
    ensures x == y
  {
  }

  /** Some task in `ts` has pid `pid`. */
  ghost predicate PidUsed(ts: seq<Slot>, pid: int)
  {
    exists k :: 0 <= k < |ts| && ts[k].Used? && ts[k].t.pid == pid
  }

  /** The pids held in `ts`. */
  ghost function Pids(ts: seq<Slot>): (r: set<int>)
  {
    if ts == [] then {}
    else Pids(ts[..|ts| - 1]) + (if ts[|ts| - 1].Used? then {ts[|ts| - 1].t.pid} else {})
  }

  /** `Pids` collects exactly the pids `PidUsed` finds, and there are no more of them than slots. */
  lemma {:induction false} PidsHeld(ts: seq<Slot>)
    ensures forall pid :: pid in Pids(ts) <==> PidUsed(ts, pid)
    ensures |Pids(ts)| <= |ts|
  {
    if ts != [] {
      var front := ts[..|ts| - 1];
      PidsHeld(front);
      forall pid
        ensures pid in Pids(ts) <==> PidUsed(ts, pid)
      {
        if PidUsed(front, pid) {
          var k :| 0 <= k < |front| && front[k].Used? && front[k].t.pid == pid;
          assert ts[k] == front[k];
        }
        if PidUsed(ts, pid) {
          var k :| 0 <= k < |ts| && ts[k].Used? && ts[k].t.pid == pid;
          if k < |front| {
            assert front[k] == ts[k];
          }
        }
      }
    }
  }

  /** No two tasks share a pid. */
  ghost predicate UniquePids(ts: seq<Slot>)
  {
    forall i, j :: 0 <= i < j < |ts| && ts[i].Used? && ts[j].Used? ==> ts[i].t.pid != ts[j].t.pid
  }

  /** The inner loop of `find_empty_process`: does some task already have `pid`? */
  method PidTaken(ts: seq<Slot>, pid: int) returns (taken: bool)
    ensures taken <==> PidUsed(ts, pid)
  {
    var i := 0;
    while i < |ts|
      invariant 0 <= i <= |ts|
      invariant forall k :: 0 <= k < i ==> !(ts[k].Used? && ts[k].t.pid == pid)
    {
      if ts[i].Used? && ts[i].t.pid == pid {
        return true;
      }
      i := i + 1;
    }
    return false;
  }

  /**
   * The `repeat:` loop of `find_empty_process`: step `last_pid` until no
   * task holds it. The result is the first free pid after `p0` on the
   * cycle; it is found within 65 steps because 64 slots hold at most 64
   * pids.
   */
  method FreshPid(ts: seq<Slot>, p0: int) returns (p: int)
    requires |ts| == NR_TASKS && 0 <= p0 <= MAX_PID
    ensures 1 <= p <= MAX_PID && !PidUsed(ts, p)
    ensures 0 < Steps(p0, p) <= NR_TASKS + 1
    ensures forall x :: 1 <= x <= MAX_PID && 0 < Steps(p0, x) < Steps(p0, p) ==> PidUsed(ts, x)
  {
    PidsHeld(ts);
    StepsNext(p0, p0);
    p := NextPid(p0);
    ghost var tried: set<int> := {};
    var taken := PidTaken(ts, p);
    while taken
      invariant 1 <= p <= MAX_PID && Steps(p0, p) == |tried| + 1
      invariant tried <= Pids(ts) && |tried| <= NR_TASKS
      invariant forall x :: x in tried ==> 1 <= x <= MAX_PID && 0 < Steps(p0, x) < Steps(p0, p)
      invariant forall x :: 1 <= x <= MAX_PID && 0 < Steps(p0, x) < Steps(p0, p) ==> x in tried
      invariant taken <==> PidUsed(ts, p)
      decreases NR_TASKS - |tried|
    {
      assert p !in tried;
      tried := tried + {p};
      assert |tried| <= |Pids(ts)| by {
        SubsetCard(tried, Pids(ts));
      }
      StepsNext(p0, p);
      ghost var prev := p;
      p := NextPid(p);
      forall x | 1 <= x <= MAX_PID && 0 < Steps(p0, x) < Steps(p0, p)
        ensures x in tried
      {
        if Steps(p0, x) == Steps(p0, prev) {
          StepsInjective(p0, x, prev);
        }
      }
      taken := PidTaken(ts, p);
    }
  }

  /** A subset has no more elements than its superset. */
  lemma SubsetCard(a: set<int>, b: set<int>)
    requires a <= b
    ensures |a| <= |b|
  {
    assert b == a + (b - a);
    assert a * (b - a) == {};
  }

  /**
   * `find_empty_process`: `last_pid` moves to the first pid after its old
   * value that no task holds, and the result is the lowest empty slot
   * above the idle task, or -EAGAIN when all 63 are taken.
   */
  method FindEmptyProcess(k: Kernel) returns (r: int)
    requires k.Valid()
    modifies k
    ensures k.Valid() && k.task == old(k.task) && k.current == old(k.current)
    ensures k.jiffies == old(k.jiffies) && k.startupTime == old(k.startupTime)
    ensures 1 <= k.lastPid <= MAX_PID && !PidUsed(k.task, k.lastPid)
    ensures forall x :: 1 <= x <= MAX_PID && 0 < Steps(old(k.lastPid), x) < Steps(old(k.lastPid), k.lastPid) ==>
              PidUsed(k.task, x)
    ensures r == -EAGAIN || (1 <= r < NR_TASKS && k.task[r].Empty?)
    ensures r == -EAGAIN <==> forall j :: 1 <= j < NR_TASKS ==> k.task[j].Used?
    ensures r != -EAGAIN ==> forall j :: 1 <= j < r ==> k.task[j].Used?
  {
    var p := FreshPid(k.task, k.lastPid);
    k.lastPid := p;
    r := LowestEmpty(k.task);
  }

  /** The second loop of `find_empty_process`: the first NULL slot from 1 up. */
  method LowestEmpty(ts: seq<Slot>) returns (r: int)
    requires |ts| == NR_TASKS
    ensures r == -EAGAIN || (1 <= r < NR_TASKS && ts[r].Empty?)
    ensures r == -EAGAIN <==> forall j :: 1 <= j < NR_TASKS ==> ts[j].Used?
    ensures r != -EAGAIN ==> forall j :: 1 <= j < r ==> ts[j].Used?
  {
    var i := 1;
    while i < NR_TASKS
      invariant 1 <= i <= NR_TASKS
      invariant forall j :: 1 <= j < i ==> ts[j].Used?
    {
      if ts[i].Empty? {
        return i;
      }
      i := i + 1;
    }
    return -EAGAIN;
  }

  // ---------------------------------------------------------------------
  // copy_mem
  // ---------------------------------------------------------------------

  /** The size of the linear space each task slot owns: 64 MB. */
  const TASK_SPACE: int := 0x400_0000

  /** `nr * 0x4000000`: the code and data base of the task in slot `nr`. */
  function SegBase(nr: nat): (b: int)
    requires nr < NR_TASKS
  {
    nr * TASK_SPACE
  }

  /**
   * The 64 task spaces tile the 4 GB linear space: each starts on a page
   * directory entry (so `copy_page_tables` never finds it misaligned),
   * ends inside 32 bits, and no two overlap.
   */
  lemma SegBasesTile(n1: nat, n2: nat)
    requires n1 < NR_TASKS && n2 < NR_TASKS
    ensures SegBase(n1) % 0x40_0000 == 0
    ensures 0 <= SegBase(n1) && SegBase(n1) + TASK_SPACE <= 0x1_0000_0000
    ensures n1 < n2 ==> SegBase(n1) + TASK_SPACE <= SegBase(n2)
  {
    if n1 < n2 {
      assert SegBase(n2) - SegBase(n1) == (n2 - n1) * TASK_SPACE;
    }
  }

  /**
   * `copy_mem`: the panics on separate code and data spaces and on a data
   * limit below the code limit are preconditions; the result is 0, or
   * -ENOMEM when `copy_page_tables` ran out of pages (`tablesFailed`).
   */
  function CopyMem(nr: nat, codeBase: int, dataBase: int, codeLimit: int, dataLimit: int,
                   tablesFailed: bool): (r: int)
    requires nr < NR_TASKS && codeBase == dataBase && codeLimit <= dataLimit
    ensures r == 0 || r == -ENOMEM
    ensures r == -ENOMEM <==> tablesFailed
  {
    if tablesFailed then -ENOMEM else 0
  }

  // ---------------------------------------------------------------------
  // copy_process
  // ---------------------------------------------------------------------

  /**
   * The child `copy_process` builds from `cur`: a copy with a new pid and
   * father, a fresh time slice, no pending signal or alarm, no session
   * leadership, zero times, `eax` 0 and the code base of slot `nr`; it is
   * left runnable.
   */
  function Child(cur: Task, nr: nat, pid: int, jiffies: int): (c: Task)
    requires nr < NR_TASKS
  {
    cur.(state := TASK_RUNNING, pid := pid, father := cur.pid, counter := cur.priority,
         signal := 0, alarm := 0, leader := false, utime := 0, stime := 0,
         cutime := 0, cstime := 0, startTime := jiffies, eax := 0, startCode := SegBase(nr))
  }

  /** The child keeps its parent's credentials, groups, mask, actions, descriptors and directories. */
  lemma ChildInherits(cur: Task, nr: nat, pid: int, jiffies: int)
    requires nr < NR_TASKS
    ensures var c := Child(cur, nr, pid, jiffies);
            c.uid == cur.uid && c.euid == cur.euid && c.gid == cur.gid && c.egid == cur.egid &&
            c.pgrp == cur.pgrp && c.session == cur.session && c.blocked == cur.blocked &&
            c.sigaction == cur.sigaction && c.filp == cur.filp && c.pwd == cur.pwd &&
            c.root == cur.root && c.executable == cur.executable && c.priority == cur.priority &&
            c.Valid() == cur.Valid()
    ensures var c := Child(cur, nr, pid, jiffies);
            c.father == cur.pid && c.counter == cur.priority && c.signal == 0 && c.alarm == 0 &&
            c.eax == 0 && !c.leader && c.state == TASK_RUNNING
  {
  }

  /** How often `x` occurs in `s`. */
  function Occ(s: seq<int>, x: int): (n: nat)
    ensures n <= |s|
  {
    if s == [] then 0 else Occ(s[..|s| - 1], x) + (if s[|s| - 1] == x then 1 else 0)
  }

  /** `x` is NULL or a slot of a table of `n` entries. */
  predicate SlotIn(x: int, n: int)
  {
    x == NONE || 0 <= x < n
  }

  /** The count of `x` in a three-entry sequence, entry by entry. */
  lemma OccThree(a: int, b: int, c: int)
    ensures forall x :: Occ([a, b, c], x) == (if a == x then 1 else 0) + (if b == x then 1 else 0) + (if c == x then 1 else 0)
  {
    assert [a, b, c][..2] == [a, b];
    assert [a, b][..1] == [a];
    assert [a][..0] == [];
    forall x
      ensures Occ([a, b, c], x) == (if a == x then 1 else 0) + (if b == x then 1 else 0) + (if c == x then 1 else 0)
    {
      assert Occ([a], x) == (if a == x then 1 else 0);
      assert Occ([a, b], x) == Occ([a], x) + (if b == x then 1 else 0);
    }
  }

  /** Every entry of `s` is NULL or a slot of a table of `n` entries. */
  predicate SlotsIn(s: seq<int>, n: int)
  {
    forall i :: 0 <= i < |s| ==> SlotIn(s[i], n)
  }

  /**
   * The `f_count` loop of `copy_process`: every open file gets one more
   * reference for each descriptor of the child that names it.
   */
  method ShareFiles(files: seq<File>, filp: seq<int>) returns (r: seq<File>)
    requires SlotsIn(filp, |files|)
    ensures |r| == |files|
    ensures forall f :: 0 <= f < |files| ==> r[f] == files[f].(count := files[f].count + Occ(filp, f))
  {
    r := files;
    var i := 0;
    while i < |filp|
      invariant 0 <= i <= |filp| && |r| == |files|
      invariant forall f :: 0 <= f < |files| ==> r[f] == files[f].(count := files[f].count + Occ(filp[..i], f))
    {
      assert filp[..i + 1][..i] == filp[..i];
      var f := filp[i];
      if f != NONE {
        r := r[f := r[f].(count := r[f].count + 1)];
      }
      i := i + 1;
    }
    assert filp[..i] == filp;
  }

  /** The three `i_count` increments: the working directory, the root and the executable. */
  function ShareInodes(inodes: seq<MInode>, pwd: int, root: int, exe: int): (r: seq<MInode>)
    requires SlotIn(pwd, |inodes|) && SlotIn(root, |inodes|) && SlotIn(exe, |inodes|)
    ensures |r| == |inodes|
    ensures forall x :: 0 <= x < |inodes| ==> r[x] == inodes[x].(count := inodes[x].count + Occ([pwd, root, exe], x))
  {
    OccThree(pwd, root, exe);
    ShareOne(ShareOne(ShareOne(inodes, pwd), root), exe)
  }

  /** One more reference to slot `x`, unless it is NULL. */
  function ShareOne(inodes: seq<MInode>, x: int): (r: seq<MInode>)
    requires SlotIn(x, |inodes|)
    ensures |r| == |inodes|
    ensures forall y :: 0 <= y < |inodes| ==> r[y] == inodes[y].(count := inodes[y].count + if y == x then 1 else 0)
  {
    if x != NONE then inodes[x := inodes[x].(count := inodes[x].count + 1)] else inodes
  }

  /**
   * `copy_process` for slot `nr`, which `find_empty_process` returned.
   * `page` is what `get_free_page` gave (0 when memory is exhausted) and
   * `tablesFailed` says whether `copy_page_tables` ran out of pages. On
   * success the slot holds the child, every file and inode the child
   * shares gains its references, and the result is the child's pid; on
   * either failure nothing changes, `freed` is the page to give back, and
   * the result is -EAGAIN.
   */
  method CopyProcess(k: Kernel, fs: FileSystem, nr: nat, page: int, tablesFailed: bool)
      returns (r: int, freed: int)
    requires k.Running() && fs.Valid() && 1 <= nr < NR_TASKS && k.task[nr].Empty?
    requires SlotsIn(k.Cur().filp, NR_FILE) && SlotIn(k.Cur().pwd, NR_INODE) &&
             SlotIn(k.Cur().root, NR_INODE) && SlotIn(k.Cur().executable, NR_INODE)
    modifies k, fs
    ensures k.Running() && fs.Valid()
    ensures k.current == old(k.current) && k.jiffies == old(k.jiffies)
    ensures k.startupTime == old(k.startupTime) && k.lastPid == old(k.lastPid)
    ensures fs.lastInode == old(fs.lastInode) && fs.supers == old(fs.supers)
    ensures fs.blocks == old(fs.blocks) && fs.rootDev == old(fs.rootDev)
    ensures page == 0 || tablesFailed ==>
              r == -EAGAIN && freed == page && k.task == old(k.task) &&
              fs.files == old(fs.files) && fs.inodes == old(fs.inodes)
    ensures page != 0 && !tablesFailed ==>
              var cur := old(k.Cur());
              r == k.lastPid && freed == 0 &&
              k.task == old(k.task)[nr := Used(Child(cur, nr, k.lastPid, k.jiffies), page)] &&
              (forall f :: 0 <= f < NR_FILE ==>
                 fs.files[f] == old(fs.files[f]).(count := old(fs.files[f]).count + Occ(cur.filp, f))) &&
              fs.inodes == ShareInodes(old(fs.inodes), cur.pwd, cur.root, cur.executable)
    ensures old(UniquePids(k.task)) && !old(PidUsed(k.task, k.lastPid)) ==> UniquePids(k.task)
  {
    if page == 0 {
      return -EAGAIN, 0;
    }
    var cur := k.Cur();
    if tablesFailed {
      return -EAGAIN, page;
    }
    var files := ShareFiles(fs.files, cur.filp);
    fs.files := files;
    fs.inodes := ShareInodes(fs.inodes, cur.pwd, cur.root, cur.executable);
    var child := Child(cur, nr, k.lastPid, k.jiffies);
    ChildInherits(cur, nr, k.lastPid, k.jiffies);
    k.task := k.task[nr := Used(child, page)];
    r, freed := k.lastPid, 0;
  }

  // ---------------------------------------------------------------------
  // verify_area
  // ---------------------------------------------------------------------

  /**
   * The linear addresses `verify_area(addr, size)` passes to
   * `write_verify`: one per page from the page holding `addr` through
   * the page holding its last byte, offset by the data base.
   */
  function VerifiedPages(start: int, size: int): (s: seq<int>)
    decreases size
  {
    if size <= 0 then [] else [start] + VerifiedPages(start + PAGE_SIZE, size - PAGE_SIZE)
  }

  /** The pages come one per 4096 bytes of the widened range, and the first is the page of `addr`. */
  lemma {:induction false} VerifiedPagesCover(start: int, size: int)
    ensures |VerifiedPages(start, size)| == if size <= 0 then 0 else (size + PAGE_SIZE - 1) / PAGE_SIZE
    ensures forall i :: 0 <= i < |VerifiedPages(start, size)| ==> VerifiedPages(start, size)[i] == start + i * PAGE_SIZE
    decreases size
  {
    if size > 0 {
      VerifiedPagesCover(start + PAGE_SIZE, size - PAGE_SIZE);
    }
  }

  /**
   * `verify_area`: the size is widened by the offset of `addr` in its
   * page, the start rounded down to a page and moved by the data base,
   * and every page of the range is checked for writing, in order.
   */
  method VerifyArea(addr: u32, size: int, dataBase: int) returns (pages: seq<int>)
    ensures pages == VerifiedPages(addr - addr % PAGE_SIZE + dataBase, size + addr % PAGE_SIZE)
  {
    var left := size + addr % PAGE_SIZE;
    var start := addr - addr % PAGE_SIZE + dataBase;
    pages := [];
    while left > 0
      invariant pages + VerifiedPages(start, left) ==
                VerifiedPages(addr - addr % PAGE_SIZE + dataBase, size + addr % PAGE_SIZE)
      decreases left
    {
      left := left - PAGE_SIZE;
      pages := pages + [start];
      start := start + PAGE_SIZE;
    }
  }
}
