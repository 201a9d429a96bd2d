/*
 * kernel/exit.c: signals sent by `send_sig`, `kill_session` and
 * `sys_kill`, the freeing of a task slot (`release`), the bookkeeping of
 * `do_exit`, the status word of `sys_exit`, and the child search of
 * `sys_waitpid`. The target conventions of `kill` and `waitpid` are those
 * of sections 3.3.2 and 3.2.1 of IEEE Std 1003.1-1988.
 */
module Exit {
  import opened Layout
  import opened Records
  import opened Desc
  import opened Tasks

  // ---------------------------------------------------------------------
  // send_sig
  // ---------------------------------------------------------------------

  /**
   * The result of `send_sig(sig, p, priv)` by a task with effective uid
   * `euid`: -EINVAL for a NULL task or a signal outside 1..32, 0 when the
   * sender is privileged, has the target's effective uid or is the
   * superuser (`suser`), and -EPERM otherwise.
   */
  function SendErr(s: Slot, sig: int, priv: bool, euid: int, suser: bool): (e: int)
  {
    if s.Empty? || sig < 1 || sig > 32 then -EINVAL
    else if priv || euid == s.t.euid || suser then 0
    else -EPERM
  }

  /** The target of `send_sig` afterwards: the signal is pending when the send succeeded. */
  function Send(s: Slot, sig: int, priv: bool, euid: int, suser: bool): (r: Slot)
  {
    if SendErr(s, sig, priv, euid, suser) == 0 then s.(t := s.t.(signal := s.t.signal | Sig(sig))) else s
  }

  /** A send marks exactly its signal pending, and only when it succeeds; a privileged send to a task fails only on a bad signal number. */
  lemma SendMarks(s: Slot, sig: int, priv: bool, euid: int, suser: bool)
    ensures var r := Send(s, sig, priv, euid, suser);
            r.Used? == s.Used? &&
            (SendErr(s, sig, priv, euid, suser) == 0 <==>
               (s.Used? && 1 <= sig <= 32 && r.t.signal & Sig(sig) != 0 && (priv || euid == s.t.euid || suser)))
    ensures var r := Send(s, sig, priv, euid, suser);
            SendErr(s, sig, priv, euid, suser) == 0 ==> r.t == s.t.(signal := s.t.signal | Sig(sig))
    ensures SendErr(s, sig, priv, euid, suser) != 0 ==> Send(s, sig, priv, euid, suser) == s
    ensures priv && s.Used? && 1 <= sig <= 32 ==> SendErr(s, sig, priv, euid, suser) == 0
  {
    if SendErr(s, sig, priv, euid, suser) == 0 {
      var b := Sig(sig);
      assert (s.t.signal | b) & b == b;
    }
  }

  /**
   * `send_sig` on slot `p` of the table (NONE for a NULL pointer), sent
   * by the running task with superuser rights `suser`.
   */
  method SendSig(k: Kernel, sig: int, p: int, priv: bool, suser: bool) returns (err: int)
    requires k.Running() && (p == NONE || 0 <= p < NR_TASKS)
    modifies k
    ensures k.Running()
    ensures var s := if p == NONE then Empty else old(k.task[p]);
            err == SendErr(s, sig, priv, old(k.Cur()).euid, suser)
    ensures k.task == if p == NONE then old(k.task) else old(k.task)[p := Send(old(k.task[p]), sig, priv, old(k.Cur()).euid, suser)]
    ensures k.current == old(k.current) && k.jiffies == old(k.jiffies)
    ensures k.startupTime == old(k.startupTime) && k.lastPid == old(k.lastPid)
  {
    var euid := k.Cur().euid;
    if p == NONE {
      return SendErr(Empty, sig, priv, euid, suser);
    }
    err := SendErr(k.task[p], sig, priv, euid, suser);
    k.task := k.task[p := Send(k.task[p], sig, priv, euid, suser)];
  }

  // ---------------------------------------------------------------------
  // sys_kill
  // ---------------------------------------------------------------------

  /**
   * Whether `sys_kill(pid, …)` by a task with pid `me` sends to slot `s`:
   * pid 0 the tasks whose group is `me`, a positive pid that task, -1
   * every slot (empty ones too), and any other negative pid the group
   * `-pid`.
   */
  predicate Targeted(s: Slot, pid: int, me: int)
  {
    if pid == 0 then s.Used? && s.t.pgrp == me
    else if pid > 0 then s.Used? && s.t.pid == pid
    else if pid == -1 then true
    else s.Used? && s.t.pgrp == -pid
  }

  /** The error `sys_kill` meets at slot `s` (0 when it sends nothing or the send succeeds). */
  function KillErr(s: Slot, pid: int, sig: int, cur: Task, suser: bool): (r: int)
  {
    if Targeted(s, pid, cur.pid) then SendErr(s, sig, pid == 0, cur.euid, suser) else 0
  }

  /** Slot `s` after `sys_kill`. */
  function Killed(s: Slot, pid: int, sig: int, cur: Task, suser: bool): (r: Slot)
  {
    if Targeted(s, pid, cur.pid) then Send(s, sig, pid == 0, cur.euid, suser) else s
  }

  /** The table after `sys_kill`: slot 0 is never visited. */
  function KillTable(ts: seq<Slot>, pid: int, sig: int, cur: Task, suser: bool): (r: seq<Slot>)
    ensures |r| == |ts|
  {
    seq(|ts|, k requires 0 <= k < |ts| => if k == 0 then ts[k] else Killed(ts[k], pid, sig, cur, suser))
  }

  /**
   * The value `sys_kill` returns when the scan has covered slots
   * `lo`..63: each error overwrites the last, and the scan runs
   * downward, so the error of the lowest failing slot wins.
   */
  function KillResult(ts: seq<Slot>, pid: int, sig: int, cur: Task, suser: bool, lo: nat): (r: int)
    decreases |ts| - lo
  {
    if lo >= |ts| then 0
    else if KillErr(ts[lo], pid, sig, cur, suser) != 0 then KillErr(ts[lo], pid, sig, cur, suser)
    else KillResult(ts, pid, sig, cur, suser, lo + 1)
  }

  /** The scan of `sys_kill` over slots 63 down to 1, on the table `ts` with `cur` the sender. */
  method KillAll(ts: seq<Slot>, pid: int, sig: int, cur: Task, suser: bool) returns (r: seq<Slot>, retval: int)
    requires |ts| == NR_TASKS
    ensures r == KillTable(ts, pid, sig, cur, suser)
    ensures retval == KillResult(ts, pid, sig, cur, suser, 1)
  {
    r := ts;
    retval := 0;
    var i := NR_TASKS;
    while i > 1
      invariant 1 <= i <= NR_TASKS && |r| == NR_TASKS
      invariant forall k :: 0 <= k < NR_TASKS ==>
                  r[k] == (if k >= i then Killed(ts[k], pid, sig, cur, suser) else ts[k])
      invariant retval == KillResult(ts, pid, sig, cur, suser, i)
    {
      i := i - 1;
      var err := if Targeted(r[i], pid, cur.pid) then SendErr(r[i], sig, pid == 0, cur.euid, suser) else 0;
      if Targeted(r[i], pid, cur.pid) {
        r := r[i := Send(r[i], sig, pid == 0, cur.euid, suser)];
      }
      if err != 0 {
        retval := err;
      }
    }
  }

  /**
   * `sys_kill(pid, sig)` by the running task, whose superuser rights are
   * `suser`: every targeted slot above 0 receives the signal where
   * `send_sig` allows it, and the result is the last error met.
   */
  method SysKill(k: Kernel, pid: int, sig: int, suser: bool) returns (retval: int)
    requires k.Running()
    modifies k
    ensures k.Valid()
    ensures k.task == KillTable(old(k.task), pid, sig, old(k.Cur()), suser)
    ensures retval == KillResult(old(k.task), pid, sig, old(k.Cur()), suser, 1)
    ensures k.current == old(k.current) && k.jiffies == old(k.jiffies)
    ensures k.startupTime == old(k.startupTime) && k.lastPid == old(k.lastPid)
  {
    var ts, r := KillAll(k.task, pid, sig, k.Cur(), suser);
    k.task := ts;
    retval := r;
  }

  /** The result is 0 or an error some targeted slot met, and 0 exactly when no targeted slot failed. */
  lemma {:induction false} KillResultIsAnError(ts: seq<Slot>, pid: int, sig: int, cur: Task, suser: bool, lo: nat)
    ensures var r := KillResult(ts, pid, sig, cur, suser, lo);
            (r == 0 <==> forall j :: lo <= j < |ts| ==> KillErr(ts[j], pid, sig, cur, suser) == 0) &&
            (r != 0 ==> exists j :: lo <= j < |ts| && KillErr(ts[j], pid, sig, cur, suser) == r &&
                                    forall i :: lo <= i < j ==> KillErr(ts[i], pid, sig, cur, suser) == 0)
    decreases |ts| - lo
  {
    if lo < |ts| {
      KillResultIsAnError(ts, pid, sig, cur, suser, lo + 1);
    }
  }

  /**
   * `kill(-1, sig)` fails whenever some slot above 0 is empty: the scan
   * hands the NULL slot to `send_sig`, which rejects it.
   */
  lemma KillAllSeesEmptySlots(ts: seq<Slot>, sig: int, cur: Task, suser: bool, j: nat)
    requires 1 <= j < |ts| && ts[j].Empty?
    ensures KillResult(ts, -1, sig, cur, suser, 1) != 0
  {
    KillResultIsAnError(ts, -1, sig, cur, suser, 1);
    assert KillErr(ts[j], -1, sig, cur, suser) == -EINVAL;
  }

  /**
   * A superuser sending a valid signal to a pid, a group or its own group
   * meets no error, and every task it targets has the signal pending.
   */
  lemma KillBySuperuser(ts: seq<Slot>, pid: int, sig: int, cur: Task, j: nat)
    requires pid != -1 && 1 <= sig <= 32 && 1 <= j < |ts|
    ensures KillResult(ts, pid, sig, cur, true, 1) == 0
    ensures Targeted(ts[j], pid, cur.pid) ==>
              KillTable(ts, pid, sig, cur, true)[j].t.signal & Sig(sig) != 0
  {
    KillResultIsAnError(ts, pid, sig, cur, true, 1);
    if Targeted(ts[j], pid, cur.pid) {
      SendMarks(ts[j], sig, pid == 0, cur.euid, true);
    }
  }

  /**
   * The error `kill(-1, …)` is meant to meet at slot `s`: empty slots are
   * skipped there as in the other three cases.
   */
  function KillErrIntended(s: Slot, pid: int, sig: int, cur: Task, suser: bool): (r: int)
  {
    if s.Used? then KillErr(s, pid, sig, cur, suser) else 0
  }

  /** `KillResult` with empty slots skipped: the value the scan over `lo`..63 is meant to return. */
  function KillResultIntended(ts: seq<Slot>, pid: int, sig: int, cur: Task, suser: bool, lo: nat): (r: int)
    decreases |ts| - lo
  {
    if lo >= |ts| then 0
    else if KillErrIntended(ts[lo], pid, sig, cur, suser) != 0 then KillErrIntended(ts[lo], pid, sig, cur, suser)
    else KillResultIntended(ts, pid, sig, cur, suser, lo + 1)
  }

  /**
   * With empty slots skipped, a superuser sending a valid signal meets no
   * error for any pid, `-1` included.
   */
  lemma {:induction false} KillIntendedBySuperuser(ts: seq<Slot>, pid: int, sig: int, cur: Task, lo: nat)
    requires 1 <= sig <= 32
    ensures KillResultIntended(ts, pid, sig, cur, true, lo) == 0
    decreases |ts| - lo
  {
    if lo < |ts| {
      KillIntendedBySuperuser(ts, pid, sig, cur, lo + 1);
    }
  }

  /** Skipping empty slots changes the result only when the scan meets one: on a full table the two agree. */
  lemma {:induction false} KillIntendedAgrees(ts: seq<Slot>, pid: int, sig: int, cur: Task, suser: bool, lo: nat)
    requires forall j :: lo <= j < |ts| ==> ts[j].Used?
    ensures KillResultIntended(ts, pid, sig, cur, suser, lo) == KillResult(ts, pid, sig, cur, suser, lo)
    decreases |ts| - lo
  {
    if lo < |ts| {
      KillIntendedAgrees(ts, pid, sig, cur, suser, lo + 1);
    }
  }

  // ---------------------------------------------------------------------
  // release
  // ---------------------------------------------------------------------

  /**
   * `release(p)` for the task in slot `p` (NONE for NULL): the slot is
   * emptied and `freed` is the page that held the task, for `free_page`.
   * Releasing slot 0 is the "non-existent task" panic, excluded here.
   */
  method Release(k: Kernel, p: int) returns (freed: int)
    requires k.Valid() && (p == NONE || (1 <= p < NR_TASKS && k.task[p].Used?))
    modifies k
    ensures k.Valid()
    ensures p == NONE ==> freed == 0 && k.task == old(k.task)
    ensures p != NONE ==> freed == old(k.task[p]).page && k.task == old(k.task)[p := Empty]
    ensures k.current == old(k.current) && k.jiffies == old(k.jiffies)
    ensures k.startupTime == old(k.startupTime) && k.lastPid == old(k.lastPid)
  {
    if p == NONE {
      return 0;
    }
    var i := 1;
    while i < NR_TASKS
      invariant 1 <= i <= p
      invariant k.task == old(k.task)
      invariant k.current == old(k.current) && k.jiffies == old(k.jiffies)
      invariant k.startupTime == old(k.startupTime) && k.lastPid == old(k.lastPid)
    {
      if i == p {
        freed := k.task[i].page;
        k.task := k.task[i := Empty];
        return;
      }
      i := i + 1;
    }
  }

  // ---------------------------------------------------------------------
  // do_exit
  // ---------------------------------------------------------------------

  /** Slot `s` after the first loop of `do_exit`: a child of `pid` is handed to init (pid 1). */
  function Adopted(s: Slot, pid: int): (r: Slot)
  {
    if s.Used? && s.t.father == pid then s.(t := s.t.(father := 1)) else s
  }

  /** Some task among the first `n` slots is a zombie child of `pid`. */
  ghost predicate ZombieChild(ts: seq<Slot>, pid: int, n: int)
  {
    exists i :: 0 <= i < n && i < |ts| && ts[i].Used? && ts[i].t.father == pid && ts[i].t.state == TASK_ZOMBIE
  }

  /**
   * The table after the first `n` steps of the first loop of `do_exit`:
   * those children of `pid` now have father 1, and slot 1 has a SIGCHLD
   * pending when one of them is a zombie.
   */
  ghost function Adopting(ts: seq<Slot>, pid: int, n: int): (r: seq<Slot>)
    requires |ts| == NR_TASKS
    ensures |r| == NR_TASKS && SameShape(r, ts)
  {
    var a := seq(NR_TASKS, i requires 0 <= i < NR_TASKS => if i < n then Adopted(ts[i], pid) else ts[i]);
    if ZombieChild(ts, pid, n) then a[1 := Chld(a[1])] else a
  }

  /** The table after the whole first loop of `do_exit`. */
  ghost function Reparented(ts: seq<Slot>, pid: int): (r: seq<Slot>)
    requires |ts| == NR_TASKS
    ensures SameShape(r, ts)
  {
    Adopting(ts, pid, NR_TASKS)
  }

  /** `send_sig(SIGCHLD, p, 1)`. */
  function Chld(s: Slot): (r: Slot)
  {
    Send(s, SIGCHLD, true, 0, false)
  }

  /** A second SIGCHLD changes nothing, and it does not interfere with a change of father. */
  lemma ChldCommutes(s: Slot, pid: int)
    ensures Chld(Chld(s)) == Chld(s)
    ensures Chld(Adopted(s, pid)) == Adopted(Chld(s), pid)
  {
    if s.Used? {
      var b := Sig(SIGCHLD);
      assert (s.t.signal | b) | b == s.t.signal | b;
    }
  }

  /** One step of the first loop of `do_exit`, at slot `i`. */
  function AdoptOne(r: seq<Slot>, i: nat, pid: int): (r1: seq<Slot>)
    requires |r| == NR_TASKS && i < NR_TASKS
    ensures |r1| == NR_TASKS
  {
    if r[i].Used? && r[i].t.father == pid then
      var a := r[i := r[i].(t := r[i].t.(father := 1))];
      if r[i].t.state == TASK_ZOMBIE then a[1 := Chld(a[1])] else a
    else r
  }

  /** The loop's step takes the table from `i` adopted slots to `i + 1`. */
  lemma AdoptStep(ts: seq<Slot>, pid: int, i: nat)
    requires |ts| == NR_TASKS && i < NR_TASKS
    ensures Adopting(ts, pid, i + 1) == AdoptOne(Adopting(ts, pid, i), i, pid)
  {
    var A := Adopting(ts, pid, i);
    var B := Adopting(ts, pid, i + 1);
    var C := AdoptOne(A, i, pid);
    var child := ts[i].Used? && ts[i].t.father == pid;
    var zombie := child && ts[i].t.state == TASK_ZOMBIE;
    assert ZombieChild(ts, pid, i + 1) <==> ZombieChild(ts, pid, i) || zombie;
    assert A[i].Used? == ts[i].Used? && (A[i].Used? ==> A[i].t.father == ts[i].t.father && A[i].t.state == ts[i].t.state);
    ChldCommutes(ts[1], pid);
    ChldCommutes(Adopted(ts[1], pid), pid);
    forall j | 0 <= j < NR_TASKS
      ensures B[j] == C[j]
    {
      if j != 1 && j != i {
        assert B[j] == A[j];
      }
    }
  }

  /** The first loop of `do_exit`: children go to init, which hears of zombies. */
  method ReparentAll(ts: seq<Slot>, pid: int) returns (r: seq<Slot>)
    requires |ts| == NR_TASKS
    ensures r == Reparented(ts, pid)
  {
    r := ts;
    assert r == Adopting(ts, pid, 0);
    var i := 0;
    while i < NR_TASKS
      invariant 0 <= i <= NR_TASKS
      invariant r == Adopting(ts, pid, i)
    {
      AdoptStep(ts, pid, i);
      if r[i].Used? && r[i].t.father == pid {
        var zombie := r[i].t.state == TASK_ZOMBIE;
        r := r[i := r[i].(t := r[i].t.(father := 1))];
        if zombie {
          r := r[1 := Chld(r[1])];
        }
      }
      i := i + 1;
    }
  }

  /** Slot `s` after `kill_session` by a task of session `session`. */
  function Hung(s: Slot, session: int): (r: Slot)
  {
    if s.Used? && s.t.session == session then s.(t := s.t.(signal := s.t.signal | Sig(SIGHUP))) else s
  }

  /** The table after `kill_session`: every task of the session but the one in slot 0 has SIGHUP pending. */
  function HangUpTable(ts: seq<Slot>, session: int): (r: seq<Slot>)
    ensures SameShape(r, ts)
  {
    seq(|ts|, k requires 0 <= k < |ts| => if k == 0 then ts[k] else Hung(ts[k], session))
  }

  /** `kill_session`: the scan from slot 63 down to slot 1. */
  method KillSession(ts: seq<Slot>, session: int) returns (r: seq<Slot>)
    requires |ts| == NR_TASKS
    ensures r == HangUpTable(ts, session)
  {
    r := ts;
    var i := NR_TASKS - 1;
    while i > 0
      invariant 0 <= i < NR_TASKS && |r| == NR_TASKS
      invariant forall k :: 0 <= k < NR_TASKS ==> r[k] == (if k > i then Hung(ts[k], session) else ts[k])
    {
      r := r[i := Hung(r[i], session)];
      i := i - 1;
    }
  }

  /** The first slot at or above `from` whose task has pid `pid`, or NONE. */
  function PidSlot(ts: seq<Slot>, pid: int, from: nat): (r: int)
    ensures r == NONE || (from <= r < |ts| && ts[r].Used? && ts[r].t.pid == pid)
    decreases |ts| - from
  {
    if from >= |ts| then NONE
    else if ts[from].Used? && ts[from].t.pid == pid then from
    else PidSlot(ts, pid, from + 1)
  }

  /** `PidSlot` finds the first task with the pid, and NONE means there is none. */
  lemma {:induction false} PidSlotFirst(ts: seq<Slot>, pid: int, from: nat)
    ensures var r := PidSlot(ts, pid, from);
            (r == NONE <==> forall j :: from <= j < |ts| ==> !(ts[j].Used? && ts[j].t.pid == pid)) &&
            (r != NONE ==> forall j :: from <= j < r ==> !(ts[j].Used? && ts[j].t.pid == pid))
    decreases |ts| - from
  {
    if from < |ts| {
      PidSlotFirst(ts, pid, from + 1);
    }
  }

  /** The loop of `tell_father`: the first slot holding pid `pid`. */
  method FindPid(ts: seq<Slot>, pid: int) returns (r: int)
    ensures r == PidSlot(ts, pid, 0)
  {
    var i := 0;
    while i < |ts|
      invariant 0 <= i <= |ts|
      invariant PidSlot(ts, pid, i) == PidSlot(ts, pid, 0)
    {
      if ts[i].Used? && ts[i].t.pid == pid {
        return i;
      }
      i := i + 1;
    }
    return NONE;
  }

  /** The exiting task's own fields after `do_exit`: no descriptors, no directories, a zombie with its code. */
  function Ended(t: Task, code: int): (r: Task)
    ensures r.pid == t.pid && r.Valid() == (|t.sigaction| == 32)
  {
    t.(filp := seq(NR_OPEN, _ => NONE), closeOnExec := 0, pwd := NONE, root := NONE,
       executable := NONE, state := TASK_ZOMBIE, exitCode := code)
  }

  /** The slot `tell_father` signals: the first task with the father's pid, or NONE when there is none or the pid is 0. */
  function FatherSlot(ts: seq<Slot>, father: int): (r: int)
  {
    if father != 0 then PidSlot(ts, father, 0) else NONE
  }

  /**
   * The table after `do_exit(code)` by the task in slot `me`: children
   * reparented, the task closed and a zombie, its session hung up when
   * it leads one, and its father told by SIGCHLD; with no father found,
   * `release` empties the task's own slot.
   */
  ghost function ExitTable(ts: seq<Slot>, me: nat, code: int): (r: seq<Slot>)
    requires |ts| == NR_TASKS && me < NR_TASKS && ts[me].Used?
  {
    var cur := ts[me].t;
    var t1 := Reparented(ts, cur.pid);
    var t2 := t1[me := t1[me].(t := Ended(t1[me].t, code))];
    var t3 := if cur.leader then HangUpTable(t2, cur.session) else t2;
    var f := FatherSlot(t3, cur.father);
    if f != NONE then t3[f := Send(t3[f], SIGCHLD, true, 0, false)] else t3[me := Empty]
  }

  /**
   * After `do_exit` the task is a zombie with its exit code and nothing
   * open, and its father has SIGCHLD pending; with no father to tell, its
   * slot is empty.
   */
  lemma ExitEnds(ts: seq<Slot>, me: nat, code: int)
    requires |ts| == NR_TASKS && me < NR_TASKS && ts[me].Used? && ts[me].t.Valid()
    ensures var r, cur := ExitTable(ts, me, code), ts[me].t;
            var f := FatherSlot(ts, cur.father);
            (f == NONE ==> r[me].Empty?) &&
            (f != NONE ==> r[me].Used? && r[me].t.state == TASK_ZOMBIE && r[me].t.exitCode == code &&
                           r[me].t.pwd == NONE && r[me].t.root == NONE && r[me].t.executable == NONE &&
                           (forall i :: 0 <= i < |r[me].t.filp| ==> r[me].t.filp[i] == NONE) &&
                           r[f].Used? && r[f].t.pid == cur.father && r[f].t.signal & Sig(SIGCHLD) != 0)
  {
    var cur := ts[me].t;
    var t1 := Reparented(ts, cur.pid);
    var t2 := t1[me := t1[me].(t := Ended(t1[me].t, code))];
    var t3 := if cur.leader then HangUpTable(t2, cur.session) else t2;
    assert SameShape(t3, ts);
    PidSlotSame(t3, ts, cur.father, 0);
    var f := FatherSlot(ts, cur.father);
    assert t3[me].t == t2[me].t.(signal := t3[me].t.signal);
    if f != NONE {
      SendMarks(t3[f], SIGCHLD, true, 0, false);
    }
  }

  /**
   * Every other task keeps its slot and pid; the children of the exiting
   * task now have init (pid 1) as their father, and no other task's
   * father changes.
   */
  lemma ExitAdopts(ts: seq<Slot>, me: nat, code: int, j: nat)
    requires |ts| == NR_TASKS && me < NR_TASKS && ts[me].Used?
    requires j < NR_TASKS && j != me && ts[j].Used?
    ensures var r, cur := ExitTable(ts, me, code), ts[me].t;
            r[j].Used? && r[j].t.pid == ts[j].t.pid && r[j].t.state == ts[j].t.state &&
            r[j].t.father == (if ts[j].t.father == cur.pid then 1 else ts[j].t.father)
  {
    var cur := ts[me].t;
    var t1 := Reparented(ts, cur.pid);
    assert t1[j].Used? && t1[j].t.pid == ts[j].t.pid && t1[j].t.state == ts[j].t.state &&
           t1[j].t.father == (if ts[j].t.father == cur.pid then 1 else ts[j].t.father) by {
      var a := seq(NR_TASKS, i requires 0 <= i < NR_TASKS => Adopted(ts[i], cur.pid));
      assert a[j] == Adopted(ts[j], cur.pid);
      assert t1[j] == a[j] || t1[j] == Chld(a[j]);
    }
    var t2 := t1[me := t1[me].(t := Ended(t1[me].t, code))];
    assert t2[j] == t1[j];
    var t3 := if cur.leader then HangUpTable(t2, cur.session) else t2;
    assert t3[j] == t2[j] || t3[j] == Hung(t2[j], cur.session);
    var f := FatherSlot(t3, cur.father);
    var r := ExitTable(ts, me, code);
    assert r[j] == t3[j] || r[j] == Chld(t3[j]);
  }

  /** The file-table slots of the open descriptors, in descriptor order: those `sys_close` is called on. */
  function OpenFiles(filp: seq<int>): (r: seq<int>)
    ensures forall i :: 0 <= i < |r| ==> r[i] != NONE
    ensures |r| <= |filp|
  {
    if filp == [] then []
    else (if filp[0] != NONE then [filp[0]] else []) + OpenFiles(filp[1..])
  }

  /**
   * `do_exit(code)` for the running task (slot `me`), without the
   * `free_page_tables`, `sys_close` and `iput` calls it makes: `closed`
   * lists the file-table slots of its open descriptors, `dropped` its
   * working directory, root and executable inodes (NONE where absent),
   * and `freed` the page `release` frees when no father is found (0
   * otherwise). The idle task has no father to tell, so it may not exit.
   */
  method DoExit(k: Kernel, code: int) returns (closed: seq<int>, dropped: seq<int>, freed: int)
    requires k.Running() && (k.current != 0 || FatherSlot(k.task, k.Cur().father) != NONE)
    modifies k
    ensures k.Valid()
    ensures k.task == ExitTable(old(k.task), old(k.current), code)
    ensures closed == OpenFiles(old(k.Cur()).filp)
    ensures dropped == [old(k.Cur()).pwd, old(k.Cur()).root, old(k.Cur()).executable]
    ensures k.current == old(k.current) && k.jiffies == old(k.jiffies)
    ensures k.startupTime == old(k.startupTime) && k.lastPid == old(k.lastPid)
  {
    var me := k.current;
    var cur := k.Cur();
    var ts := ReparentAll(k.task, cur.pid);
    closed := CloseAll(cur.filp);
    dropped := [cur.pwd, cur.root, cur.executable];
    ts := ts[me := ts[me].(t := Ended(ts[me].t, code))];
    if cur.leader {
      ts := KillSession(ts, cur.session);
    }
    ghost var t1 := Reparented(k.task, cur.pid);
    assert SameShape(ts, k.task) by {
      assert SameShape(t1, k.task);
    }
    PidSlotSame(ts, k.task, cur.father, 0);
    var f := NONE;
    if cur.father != 0 {
      f := FindPid(ts, cur.father);
    }
    freed := 0;
    if f != NONE {
      ts := ts[f := Send(ts[f], SIGCHLD, true, 0, false)];
    } else {
      freed := ts[me].page;
      ts := ts[me := Empty];
    }
    k.task := ts;
  }

  /** The loop of `do_exit` over the descriptors: the open ones, in order. */
  method CloseAll(filp: seq<int>) returns (closed: seq<int>)
    ensures closed == OpenFiles(filp)
  {
    closed := [];
    var i := 0;
    while i < |filp|
      invariant 0 <= i <= |filp|
      invariant closed + OpenFiles(filp[i..]) == OpenFiles(filp)
    {
      assert filp[i..][1..] == filp[i + 1..];
      if filp[i] != NONE {
        closed := closed + [filp[i]];
      }
      i := i + 1;
    }
  }

  /** Two tables with the same slots in use, holding the same pids and equally well-formed tasks. */
  ghost predicate SameShape(a: seq<Slot>, b: seq<Slot>)
  {
    |a| == |b| &&
    forall i :: 0 <= i < |a| ==>
      a[i].Used? == b[i].Used? && (a[i].Used? ==> a[i].t.pid == b[i].t.pid && a[i].t.Valid() == b[i].t.Valid())
  }

  /** The pid search gives the same answer on tables of the same shape. */
  lemma {:induction false} PidSlotSame(a: seq<Slot>, b: seq<Slot>, pid: int, from: nat)
    requires SameShape(a, b)
    ensures PidSlot(a, pid, from) == PidSlot(b, pid, from)
    decreases |a| - from
  {
    if from < |a| {
      PidSlotSame(a, b, pid, from + 1);
    }
  }

  // ---------------------------------------------------------------------
  // sys_exit
  // ---------------------------------------------------------------------

  /** `(error_code & 0xff) << 8`: the status word `sys_exit` hands to `do_exit`. */
  function ExitStatus(code: int): (s: int)
  {
    (code % 0x100) * 0x100
  }

  /**
   * The status word reads back as an exit: its low byte (the signal and
   * stop bits `waitpid` reports) is 0 and its second byte is the low
   * byte of the code.
   */
  lemma ExitStatusDecodes(code: int)
    ensures 0 <= ExitStatus(code) <= 0xff00
    ensures ExitStatus(code) % 0x100 == 0
    ensures ExitStatus(code) / 0x100 == code % 0x100
  {
  }

  // ---------------------------------------------------------------------
  // sys_waitpid
  // ---------------------------------------------------------------------

  /**
   * Slot `j` holds a child of the caller (slot `me`, pid `cur.pid`) that
   * `waitpid(pid, …)` asks about: any child for -1, that pid for a
   * positive pid, the caller's group for 0, and the group `-pid` for
   * any other negative pid.
   */
  predicate Waited(ts: seq<Slot>, j: int, me: int, cur: Task, pid: int)
  {
    0 <= j < |ts| && j != me && ts[j].Used? && ts[j].t.father == cur.pid &&
    (if pid > 0 then ts[j].t.pid == pid
     else if pid == 0 then ts[j].t.pgrp == cur.pgrp
     else if pid != -1 then ts[j].t.pgrp == -pid
     else true)
  }

  /** `options & WUNTRACED`. */
  predicate Untraced(options: int) { (options / 2) % 2 == 1 }

  /** `options & WNOHANG`. */
  predicate NoHang(options: int) { options % 2 == 1 }

  /** Child `j` ends the scan: a zombie, or a stopped child when WUNTRACED is set. */
  predicate Reportable(ts: seq<Slot>, j: int, me: int, cur: Task, pid: int, options: int)
  {
    Waited(ts, j, me, cur, pid) &&
    (ts[j].t.state == TASK_ZOMBIE || (ts[j].t.state == TASK_STOPPED && Untraced(options)))
  }

  /** Child `j` sets the scan's flag: neither stopped nor a zombie. */
  predicate Busy(ts: seq<Slot>, j: int, me: int, cur: Task, pid: int)
  {
    Waited(ts, j, me, cur, pid) && ts[j].t.state != TASK_ZOMBIE && ts[j].t.state != TASK_STOPPED
  }

  /**
   * The scan of `sys_waitpid`, from slot 63 down to slot 1: `hit` is the
   * first child that ends it, or NONE; `flag` says whether a running or
   * sleeping child was passed.
   */
  method WaitScan(ts: seq<Slot>, me: int, cur: Task, pid: int, options: int) returns (hit: int, flag: bool)
    requires |ts| == NR_TASKS
    ensures hit == NONE || (1 <= hit < NR_TASKS && Reportable(ts, hit, me, cur, pid, options))
    ensures hit != NONE ==> forall j :: hit < j < NR_TASKS ==> !Reportable(ts, j, me, cur, pid, options)
    ensures hit == NONE ==> forall j :: 1 <= j < NR_TASKS ==> !Reportable(ts, j, me, cur, pid, options)
    ensures hit == NONE ==> (flag <==> exists j :: 1 <= j < NR_TASKS && Busy(ts, j, me, cur, pid))
  {
    flag := false;
    var i := NR_TASKS - 1;
    while i > 0
      invariant 0 <= i < NR_TASKS
      invariant forall j :: i < j < NR_TASKS ==> !Reportable(ts, j, me, cur, pid, options)
      invariant flag <==> exists j :: i < j < NR_TASKS && Busy(ts, j, me, cur, pid)
    {
      if Reportable(ts, i, me, cur, pid, options) {
        return i, flag;
      }
      if Busy(ts, i, me, cur, pid) {
        flag := true;
      }
      i := i - 1;
    }
    hit := NONE;
  }

  /** How a pass of `sys_waitpid` ends. */
  datatype WaitOutcome =
    | Stopped(pid: int)                // a stopped child; status 0x7f
    | Reaped(pid: int, code: int)      // a zombie child, freed; status its exit code
    | NoChild                          // -ECHILD
    | NoWait                           // WNOHANG: 0
    | Sleeps                           // the caller sleeps interruptibly and scans again when woken

  /** The value `sys_waitpid` returns for an outcome, and the status it stores (none for -ECHILD, 0 and a sleep). */
  function WaitReturn(o: WaitOutcome): (r: (int, Option<int>))
  {
    match o
    case Stopped(pid) => (pid, Some(0x7f))
    case Reaped(pid, code) => (pid, Some(code))
    case NoChild => (-ECHILD, None)
    case NoWait => (0, None)
    case Sleeps => (0, None)
  }

  /**
   * One pass of `sys_waitpid(pid, stat_addr, options)` by the running
   * task. A reaped zombie's times are added to the caller's child times
   * and its slot is freed (`freed` is its page); a pass that finds only
   * busy children sleeps unless WNOHANG is set; one that finds none
   * returns -ECHILD.
   */
  method SysWaitpid(k: Kernel, pid: int, options: int) returns (o: WaitOutcome, freed: int)
    requires k.Running()
    modifies k
    ensures k.Running()
    ensures k.current == old(k.current) && k.jiffies == old(k.jiffies)
    ensures k.startupTime == old(k.startupTime) && k.lastPid == old(k.lastPid)
    ensures var ts, me, cur := old(k.task), old(k.current), old(k.Cur());
            match o
            case Stopped(p) =>
              exists j :: 1 <= j < NR_TASKS && Reportable(ts, j, me, cur, pid, options) &&
                          ts[j].t.state == TASK_STOPPED && p == ts[j].t.pid &&
                          k.task == ts && freed == 0
            case Reaped(p, code) =>
              exists j :: 1 <= j < NR_TASKS && Reportable(ts, j, me, cur, pid, options) &&
                          ts[j].t.state == TASK_ZOMBIE && p == ts[j].t.pid && code == ts[j].t.exitCode &&
                          freed == ts[j].page &&
                          k.task == ts[me := ts[me].(t := cur.(cutime := cur.cutime + ts[j].t.utime,
                                                                cstime := cur.cstime + ts[j].t.stime))][j := Empty]
            case NoChild =>
              (forall j :: 1 <= j < NR_TASKS ==> !Reportable(ts, j, me, cur, pid, options) && !Busy(ts, j, me, cur, pid)) &&
              k.task == ts && freed == 0
            case NoWait =>
              (forall j :: 1 <= j < NR_TASKS ==> !Reportable(ts, j, me, cur, pid, options)) &&
              (exists j :: 1 <= j < NR_TASKS && Busy(ts, j, me, cur, pid)) &&
              NoHang(options) && k.task == ts && freed == 0
            case Sleeps =>
              (forall j :: 1 <= j < NR_TASKS ==> !Reportable(ts, j, me, cur, pid, options)) &&
              (exists j :: 1 <= j < NR_TASKS && Busy(ts, j, me, cur, pid)) &&
              !NoHang(options) && freed == 0 &&
              k.task == ts[me := ts[me].(t := cur.(state := TASK_INTERRUPTIBLE))]
  {
    var me := k.current;
    var cur := k.Cur();
    var hit, flag := WaitScan(k.task, me, cur, pid, options);
    freed := 0;
    if hit != NONE {
      var c := k.task[hit];
      if c.t.state == TASK_STOPPED {
        return Stopped(c.t.pid), 0;
      }
      k.SetCur(cur.(cutime := cur.cutime + c.t.utime, cstime := cur.cstime + c.t.stime));
      freed := c.page;
      k.task := k.task[hit := Empty];
      return Reaped(c.t.pid, c.t.exitCode), freed;
    }
    if !flag {
      return NoChild, 0;
    }
    if NoHang(options) {
      return NoWait, 0;
    }
    k.SetCur(cur.(state := TASK_INTERRUPTIBLE));
    o := Sleeps;
  }

  /** `signal &= ~(1 << (SIGCHLD - 1))`. */
  function ClearChld(w: bv32): (r: bv32)
    ensures r & Sig(SIGCHLD) == 0 && r | (w & Sig(SIGCHLD)) == w
  {
    w & !Sig(SIGCHLD)
  }

  /**
   * The end of a pass that slept: SIGCHLD is cleared from the pending
   * signals, and the call fails with -EINTR when another signal is left;
   * otherwise the scan starts again.
   */
  method WaitWoken(k: Kernel) returns (interrupted: bool)
    requires k.Running()
    modifies k
    ensures k.Running()
    ensures k.Cur() == old(k.Cur()).(signal := ClearChld(old(k.Cur()).signal))
    ensures interrupted <==> k.Cur().signal != 0
    ensures k.task == old(k.task)[k.current := old(k.task[k.current]).(t := k.Cur())]
    ensures k.current == old(k.current) && k.jiffies == old(k.jiffies)
    ensures k.startupTime == old(k.startupTime) && k.lastPid == old(k.lastPid)
  {
    var t := k.Cur();
    t := t.(signal := ClearChld(t.signal));
    k.SetCur(t);
    interrupted := t.signal != 0;
  }
}
