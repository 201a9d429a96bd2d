/*
 * The scheduler and the clock of kernel/sched.c: the wake-up pass and the
 * selection loop of `schedule`, the tick accounting of `do_timer`,
 * `sys_alarm` and `sys_nice`. The timer list that `add_timer` and
 * `do_timer` keep is in Timers.
 */
module Sched {
  import opened Records
  import opened Desc
  import opened Tasks
  import opened Timers

  // ---------------------------------------------------------------------
  // The wake-up pass of schedule
  // ---------------------------------------------------------------------

  /**
   * A task after one step of the first loop of `schedule`: an alarm that
   * has passed becomes a pending SIGALRM, then an interruptible task with a
   * pending signal it does not block is made runnable. Only the signal
   * word, the alarm and the state change.
   */
  function Woken(t: Task, jiffies: int): (r: Task)
  {
    var fires := t.alarm != 0 && t.alarm < jiffies;
    var signal := if fires then t.signal | Sig(SIGALRM) else t.signal;
    var wakes := signal & !(BLOCKABLE & t.blocked) != 0 && t.state == TASK_INTERRUPTIBLE;
    t.(signal := signal, alarm := if fires then 0 else t.alarm,
       state := if wakes then TASK_RUNNING else t.state)
  }

  /** A pending SIGKILL or SIGSTOP wakes an interruptible task whatever its mask says. */
  lemma UnblockableWakes(t: Task, jiffies: int, nr: nat)
    requires nr == SIGKILL || nr == SIGSTOP
    requires t.state == TASK_INTERRUPTIBLE && t.signal & Sig(nr) != 0
    ensures Woken(t, jiffies).state == TASK_RUNNING
  {
    var signal := Woken(t, jiffies).signal;
    assert signal & Sig(nr) != 0;
    assert BLOCKABLE & Sig(nr) == 0;
    assert (signal & !(BLOCKABLE & t.blocked)) & Sig(nr) == signal & Sig(nr);
  }

  /**
   * A passed alarm is cleared and its SIGALRM made pending, no pending
   * signal is lost, and only an interruptible task changes state, to running.
   */
  lemma WokenChanges(t: Task, jiffies: int)
    ensures var r := Woken(t, jiffies);
            r.signal & t.signal == t.signal &&
            (t.alarm != 0 && t.alarm < jiffies ==> r.alarm == 0 && r.signal & Sig(SIGALRM) != 0) &&
            (!(t.alarm != 0 && t.alarm < jiffies) ==> r.alarm == t.alarm && r.signal == t.signal) &&
            (t.state != TASK_INTERRUPTIBLE ==> r.state == t.state) &&
            (r.state != t.state ==> r.state == TASK_RUNNING)
  {
  }

  /** A slot after the wake-up pass. */
  function WakeSlot(s: Slot, jiffies: int): (r: Slot)
  {
    if s.Used? then s.(t := Woken(s.t, jiffies)) else s
  }

  /** The table after the wake-up pass, which skips slot 0. */
  function WakeTable(ts: seq<Slot>, jiffies: int): (r: seq<Slot>)
    ensures |r| == |ts|
    ensures forall k :: 0 <= k < |ts| ==>
              r[k].Used? == ts[k].Used? &&
              (r[k].Used? ==> r[k].t.Valid() == ts[k].t.Valid() && r[k].t.priority == ts[k].t.priority)
  {
    seq(|ts|, k requires 0 <= k < |ts| => if k == 0 then ts[k] else WakeSlot(ts[k], jiffies))
  }

  /** The first loop of `schedule`, from the last slot down to slot 1. */
  method WakeAll(ts: seq<Slot>, jiffies: int) returns (r: seq<Slot>)
    requires |ts| == NR_TASKS
    ensures r == WakeTable(ts, jiffies)
  {
    r := ts;
    var i := NR_TASKS - 1;
    while i > 0
      invariant 0 <= i < NR_TASKS && |r| == NR_TASKS
      invariant forall k :: 0 <= k < NR_TASKS ==>
                  r[k] == (if k > i then WakeSlot(ts[k], jiffies) else ts[k])
    {
      if r[i].Used? {
        r := r[i := r[i].(t := Woken(r[i].t, jiffies))];
      }
      i := i - 1;
    }
  }

  // ---------------------------------------------------------------------
  // Selection and counter decay
  // ---------------------------------------------------------------------

  /** Slot `k` holds a runnable task. */
  ghost predicate Runnable(ts: seq<Slot>, k: int)
    requires |ts| == NR_TASKS
  {
    0 <= k < NR_TASKS && ts[k].Used? && ts[k].t.state == TASK_RUNNING
  }

  /**
   * `n` is the task the selection loop picks among slots `lo` .. 63, and
   * `c` its counter: the runnable task with the largest counter that is at
   * least 0, the highest slot winning a tie; slot 0 with -1 when there is none.
   */
  ghost predicate Picks(ts: seq<Slot>, lo: nat, n: nat, c: int)
    requires |ts| == NR_TASKS && 1 <= lo
  {
    (forall k :: lo <= k < NR_TASKS && Runnable(ts, k) ==>
       ts[k].t.counter <= c && (n != 0 && k > n ==> ts[k].t.counter < c)) &&
    ((n == 0 && c == -1) || (lo <= n < NR_TASKS && Runnable(ts, n) && ts[n].t.counter == c && c >= 0))
  }

  /** The selection is determined by the table. */
  lemma PicksUnique(ts: seq<Slot>, n1: nat, c1: int, n2: nat, c2: int)
    requires |ts| == NR_TASKS && Picks(ts, 1, n1, c1) && Picks(ts, 1, n2, c2)
    ensures n1 == n2 && c1 == c2
  {
    if n1 != 0 {
      assert Runnable(ts, n1);
    }
    if n2 != 0 {
      assert Runnable(ts, n2);
    }
  }

  /** The counter of the task picked in slot `n`, or -1 for slot 0. */
  ghost function Chosen(ts: seq<Slot>, n: nat): (r: int)
    requires |ts| == NR_TASKS && n < NR_TASKS
  {
    if n != 0 && ts[n].Used? then ts[n].t.counter else -1
  }

  /** The selection loop of `schedule`, from slot 63 down to slot 1. */
  method Select(ts: seq<Slot>) returns (next: nat, c: int)
    requires |ts| == NR_TASKS
    ensures next < NR_TASKS && Picks(ts, 1, next, c) && c == Chosen(ts, next)
  {
    c := -1;
    next := 0;
    var i := NR_TASKS;
    while i > 1
      invariant 1 <= i <= NR_TASKS && next < NR_TASKS && Picks(ts, i, next, c)
    {
      i := i - 1;
      if ts[i].Used? && ts[i].t.state == TASK_RUNNING && ts[i].t.counter > c {
        c := ts[i].t.counter;
        next := i;
      }
    }
  }

  /**
   * Every runnable task has used up its time: some has counter 0 and none
   * has more. This is when `schedule` recomputes the counters.
   */
  ghost predicate Stalled(ts: seq<Slot>)
    requires |ts| == NR_TASKS
  {
    (exists k :: 1 <= k < NR_TASKS && Runnable(ts, k) && ts[k].t.counter == 0) &&
    forall k :: 1 <= k < NR_TASKS && Runnable(ts, k) ==> ts[k].t.counter <= 0
  }

  /** The selection yields counter 0 exactly when the table is stalled. */
  lemma StalledIffZero(ts: seq<Slot>, n: nat, c: int)
    requires |ts| == NR_TASKS && Picks(ts, 1, n, c)
    ensures Stalled(ts) <==> c == 0
  {
    if c == 0 {
      assert Runnable(ts, n);
    }
    if Stalled(ts) {
      var k :| 1 <= k < NR_TASKS && Runnable(ts, k) && ts[k].t.counter == 0;
      if n != 0 {
        assert Runnable(ts, n);
      }
    }
  }

  /** `counter = (counter >> 1) + priority` for a task; `>> 1` floors, as Dafny's `/ 2` does. */
  function Decay(t: Task): (r: Task)
  {
    t.(counter := t.counter / 2 + t.priority)
  }

  /** The table after the counters are recomputed; slot 0 is skipped. */
  function DecayTable(ts: seq<Slot>): (r: seq<Slot>)
    ensures |r| == |ts|
    ensures forall k :: 0 <= k < |ts| ==>
              r[k].Used? == ts[k].Used? &&
              (r[k].Used? ==> r[k].t.Valid() == ts[k].t.Valid() && r[k].t.priority == ts[k].t.priority &&
                              r[k].t.state == ts[k].t.state)
  {
    seq(|ts|, k requires 0 <= k < |ts| =>
              if k == 0 || ts[k].Empty? then ts[k] else ts[k].(t := Decay(ts[k].t)))
  }

  /** The recomputing loop of `schedule`. */
  method DecayAll(ts: seq<Slot>) returns (r: seq<Slot>)
    requires |ts| == NR_TASKS
    ensures r == DecayTable(ts)
  {
    r := ts;
    var i := NR_TASKS - 1;
    while i > 0
      invariant 0 <= i < NR_TASKS && |r| == NR_TASKS
      invariant forall k :: 0 <= k < NR_TASKS ==>
                  r[k] == (if k > i && ts[k].Used? then ts[k].(t := Decay(ts[k].t)) else ts[k])
    {
      if r[i].Used? {
        r := r[i := r[i].(t := Decay(r[i].t))];
      }
      i := i - 1;
    }
  }

  /** Every task but the idle task has a positive priority. */
  ghost predicate Prioritized(ts: seq<Slot>)
  {
    forall k :: 1 <= k < |ts| && ts[k].Used? ==> ts[k].t.priority >= 1
  }

  /** With positive priorities one recomputation is enough: the next selection finds a positive counter. */
  lemma DecayUnstalls(w: seq<Slot>, n: nat, n2: nat, c2: int)
    requires |w| == NR_TASKS && Prioritized(w) && Picks(w, 1, n, 0)
    requires Picks(DecayTable(w), 1, n2, c2)
    ensures c2 >= 1
  {
    assert Runnable(w, n);
    var d := DecayTable(w);
    assert d[n].t.counter == w[n].t.priority;
    assert Runnable(d, n);
  }

  /**
   * A counter between 0 and twice the priority stays there when it is
   * recomputed, and a runnable task's counter grows to at least its priority.
   */
  lemma DecayBounded(t: Task)
    requires t.priority >= 1 && 0 <= t.counter <= 2 * t.priority
    ensures t.priority <= Decay(t).counter <= 2 * t.priority
  {
  }

  // ---------------------------------------------------------------------
  // schedule
  // ---------------------------------------------------------------------

  /**
   * `schedule`: the wake-up pass, then selection, recomputing the counters
   * while the best counter is 0; `current` becomes the task picked.
   */
  method Schedule(k: Kernel)
    requires k.Valid() && Prioritized(k.task)
    modifies k
    ensures k.Running() && Prioritized(k.task)
    ensures var w := WakeTable(old(k.task), old(k.jiffies));
            k.task == (if Stalled(w) then DecayTable(w) else w)
    ensures Picks(k.task, 1, k.current, Chosen(k.task, k.current))
    ensures k.current != 0 ==> k.task[k.current].t.counter > 0
    ensures k.jiffies == old(k.jiffies) && k.startupTime == old(k.startupTime) && k.lastPid == old(k.lastPid)
  {
    var ts := WakeAll(k.task, k.jiffies);
    var next;
    ts, next := Choose(ts);
    k.task, k.current := ts, next;
  }

  /** The selection loop of `schedule` on the woken table `w`, recomputing the counters while the best is 0. */
  method Choose(w: seq<Slot>) returns (ts: seq<Slot>, next: nat)
    requires |w| == NR_TASKS && Prioritized(w)
    ensures ts == (if Stalled(w) then DecayTable(w) else w)
    ensures next < NR_TASKS && Picks(ts, 1, next, Chosen(ts, next))
    ensures next != 0 ==> ts[next].t.counter > 0
  {
    ts := w;
    var c;
    next, c := Select(ts);
    StalledIffZero(ts, next, c);
    ghost var rounds: nat := 0;
    while c == 0
      invariant rounds <= 1 && |ts| == NR_TASKS && 0 <= next < NR_TASKS
      invariant Picks(ts, 1, next, c) && c == Chosen(ts, next)
      invariant rounds == 0 ==> ts == w && (c == 0 <==> Stalled(w))
      invariant rounds == 1 ==> ts == DecayTable(w) && Stalled(w) && c != 0
      decreases 1 - rounds
    {
      ts := DecayAll(ts);
      ghost var n0 := next;
      next, c := Select(ts);
      DecayUnstalls(w, n0, next, c);
      rounds := rounds + 1;
    }
    if next != 0 {
      assert Runnable(ts, next);
    }
  }

  // ---------------------------------------------------------------------
  // The clock: do_timer, sys_alarm, sys_nice
  // ---------------------------------------------------------------------

  /** The running task after a tick: one tick of user or system time, one tick less to run, not below 0. */
  function Charged(t: Task, cpl: int): (r: Task)
  {
    var t1 := if cpl != 0 then t.(utime := t.utime + 1) else t.(stime := t.stime + 1);
    t1.(counter := if t.counter - 1 > 0 then t.counter - 1 else 0)
  }

  /** A tick never leaves a negative counter, uses up the time slice exactly when at most one tick was left, and charges exactly one time field. */
  lemma ChargedCounter(t: Task, cpl: int)
    ensures var r := Charged(t, cpl);
            r.counter >= 0 && (r.counter == 0 <==> t.counter <= 1) &&
            (t.counter >= 1 ==> r.counter == t.counter - 1) &&
            r.utime + r.stime == t.utime + t.stime + 1 &&
            (cpl != 0 <==> r.utime == t.utime + 1)
  {
    var r := Charged(t, cpl);
    if cpl != 0 {
      assert r == t.(utime := t.utime + 1, counter := r.counter);
    } else {
      assert r == t.(stime := t.stime + 1, counter := r.counter);
    }
  }

  /**
   * `do_timer`: charges the running task, expires the timer list and
   * returns the functions it fires, in list order; a task whose time slice
   * is used up in user mode (`cpl != 0`) is rescheduled.
   */
  method DoTimer(k: Kernel, tl: TimerList, cpl: int) returns (fired: seq<int>)
    requires k.Running() && Prioritized(k.task) && tl.Valid()
    modifies k, tl
    ensures k.Running() && Prioritized(k.task) && tl.Valid()
    ensures old(tl.Tidy()) ==> tl.Tidy()
    ensures var t, q := old(tl.table), old(tl.queue);
            var f := Expiring(Tick(t, q), q, 0);
            tl.queue == q[f..] && Expired(t, q, f, tl.table) && fired == Fns(t, q[..f])
    ensures var u := old(k.task)[old(k.current) := old(k.task[k.current]).(t := Charged(old(k.Cur()), cpl))];
            var w := WakeTable(u, old(k.jiffies));
            if old(k.Cur()).counter > 1 || cpl == 0 then
              k.task == u && k.current == old(k.current)
            else
              k.task == (if Stalled(w) then DecayTable(w) else w) &&
              Picks(k.task, 1, k.current, Chosen(k.task, k.current))
    ensures k.jiffies == old(k.jiffies) && k.startupTime == old(k.startupTime) && k.lastPid == old(k.lastPid)
  {
    fired := Expire(tl);
    Charge(k, cpl);
    if k.Cur().counter > 0 || cpl == 0 {
      return;
    }
    Schedule(k);
  }

  /** The accounting part of `do_timer`: one tick charged to the current task, whose time slice shrinks by one and stops at zero. */
  method Charge(k: Kernel, cpl: int)
    requires k.Running() && Prioritized(k.task)
    modifies k
    ensures k.Running() && Prioritized(k.task)
    ensures k.task == old(k.task)[old(k.current) := old(k.task[k.current]).(t := Charged(old(k.Cur()), cpl))]
    ensures k.Cur().counter == 0 <==> old(k.Cur()).counter <= 1
    ensures k.current == old(k.current) && k.jiffies == old(k.jiffies)
    ensures k.startupTime == old(k.startupTime) && k.lastPid == old(k.lastPid)
  {
    var t := k.Cur();
    if cpl != 0 {
      t := t.(utime := t.utime + 1);
    } else {
      t := t.(stime := t.stime + 1);
    }
    t := t.(counter := t.counter - 1);
    if t.counter <= 0 {
      t := t.(counter := 0);
    }
    k.SetCur(t);
  }

  /**
   * `sys_alarm`: returns the whole seconds left on the previous alarm,
   * truncated toward zero (0 when none was set), and sets the alarm
   * `seconds` from now, or clears it when `seconds <= 0`. Both the sum
   * `jiffies + HZ * seconds` and the difference `old - jiffies` are
   * 32-bit `long` arithmetic and wrap.
   */
  method SysAlarm(k: Kernel, seconds: int) returns (left: int)
    requires k.Running()
    modifies k
    ensures k.Running()
    ensures var a := old(k.Cur()).alarm;
            left == (if a != 0 then Quot(Long(a - k.jiffies), HZ) else 0)
    ensures k.Cur() == old(k.Cur()).(alarm := if seconds > 0 then Long(k.jiffies + HZ * seconds) else 0)
    ensures k.task == old(k.task)[k.current := old(k.task[k.current]).(t := k.Cur())]
    ensures k.current == old(k.current) && k.jiffies == old(k.jiffies)
    ensures k.startupTime == old(k.startupTime) && k.lastPid == old(k.lastPid)
  {
    var t := k.Cur();
    left := t.alarm;
    if left != 0 {
      left := Quot(Long(left - k.jiffies), HZ);
    }
    k.SetCur(t.(alarm := if seconds > 0 then Long(k.jiffies + HZ * seconds) else 0));
  }

  /**
   * An alarm of `s` seconds set at tick `j`, asked again `d` ticks later
   * and before it passes, reports the whole seconds left: between 0 and
   * `s`, and within one second of the ticks left, as long as the alarm
   * tick fits in a `long`.
   */
  lemma AlarmLeft(j: nat, s: int, d: nat)
    requires s > 0 && d <= HZ * s && j + HZ * s < 0x8000_0000
    ensures var left := Quot(Long(Long(j + HZ * s) - (j + d)), HZ);
            0 <= left <= s && left * HZ <= HZ * s - d < left * HZ + HZ
  {
    assert Long(j + HZ * s) == j + HZ * s;
    assert Long(Long(j + HZ * s) - (j + d)) == HZ * s - d;
    QuotTruncates(HZ * s - d, HZ);
    var left := Quot(HZ * s - d, HZ);
    assert left * HZ <= HZ * s;
  }

  /**
   * An alarm whose tick does not fit in a `long` wraps to a negative
   * value, which the alarm test of `schedule` (`alarm && alarm <
   * jiffies`) finds passed at once: from tick 0, `sys_alarm(30000000)`
   * raises SIGALRM at the next `schedule` instead of 347 days later.
   */
  lemma AlarmWraps(j: nat, s: int)
    requires j < 0x8000_0000 && 0x8000_0000 <= j + HZ * s < 0x1_0000_0000
    ensures var a := Long(j + HZ * s);
            a == j + HZ * s - 0x1_0000_0000 && a < 0 && a != 0 && a < j
  {
    var x := j + HZ * s;
    assert 0 <= x + 0x8000_0000 - 0x1_0000_0000 < 0x1_0000_0000;
    assert (x + 0x8000_0000) % 0x1_0000_0000 == x + 0x8000_0000 - 0x1_0000_0000;
  }

  /** `sys_nice`: lowers the priority by `increment` only if it stays positive; returns 0. */
  method SysNice(k: Kernel, increment: int) returns (r: int)
    requires k.Running()
    modifies k
    ensures k.Running() && r == 0
    ensures var p := old(k.Cur()).priority;
            k.Cur() == old(k.Cur()).(priority := if p - increment > 0 then p - increment else p)
    ensures k.task == old(k.task)[k.current := old(k.task[k.current]).(t := k.Cur())]
    ensures k.current == old(k.current) && k.jiffies == old(k.jiffies)
    ensures k.startupTime == old(k.startupTime) && k.lastPid == old(k.lastPid)
    ensures old(k.Cur()).priority >= 1 ==> k.Cur().priority >= 1
    ensures Prioritized(old(k.task)) ==> Prioritized(k.task)
  {
    var t := k.Cur();
    if t.priority - increment > 0 {
      t := t.(priority := t.priority - increment);
    }
    k.SetCur(t);
    r := 0;
  }
}
