/*
 * kernel/signal.c: the signal mask calls, the installation of signal
 * actions, the frame `do_signal` pushes on the user stack before it
 * enters a handler, and the pending-signal query.
 */
module Signal {
  import opened Layout
  import opened Records
  import opened Tasks

  /** The two special handlers. */
  const SIG_DFL: int := 0
  const SIG_IGN: int := 1

  /** `sys_ssetmask`: any mask but SIGKILL is taken; the old mask is returned. */
  method SysSsetmask(k: Kernel, newmask: bv32) returns (prev: bv32)
    requires k.Running()
    modifies k
    ensures k.Running() && prev == old(k.Cur()).blocked
    ensures k.Cur() == old(k.Cur()).(blocked := k.Cur().blocked)
    ensures k.Cur().blocked & Sig(SIGKILL) == 0
    ensures k.Cur().blocked | (newmask & Sig(SIGKILL)) == newmask
    ensures k.task == old(k.task)[k.current := old(k.task[k.current]).(t := k.Cur())]
    ensures k.current == old(k.current) && k.jiffies == old(k.jiffies)
    ensures k.startupTime == old(k.startupTime) && k.lastPid == old(k.lastPid)
  {
    var t := k.Cur();
    prev := t.blocked;
    k.SetCur(t.(blocked := Unkillable(newmask)));
  }

  /** `mask & ~(1 << (SIGKILL - 1))`. */
  function Unkillable(mask: bv32): (r: bv32)
    ensures r & Sig(SIGKILL) == 0 && r | (mask & Sig(SIGKILL)) == mask
  {
    mask & !Sig(SIGKILL)
  }

  /** The signal numbers an action may be installed for: 1..32 but SIGKILL. */
  predicate Catchable(signum: int)
  {
    1 <= signum <= 32 && signum != SIGKILL
  }

  /** The action `sys_signal` installs: the handler, no mask, one-shot and not masking its own signal. */
  function SignalAction(handler: int, restorer: int): (r: SigAction)
  {
    SigAction(handler, 0, SA_ONESHOT | SA_NOMASK, restorer)
  }

  /**
   * `sys_signal(signum, handler, restorer)`: -1 for a signal that cannot
   * be caught; otherwise the action of `signum` becomes `SignalAction`
   * and the old handler is returned.
   */
  method SysSignal(k: Kernel, signum: int, handler: int, restorer: int) returns (r: int)
    requires k.Running()
    modifies k
    ensures k.Running()
    ensures !Catchable(signum) ==> r == -1 && k.task == old(k.task)
    ensures Catchable(signum) ==>
              r == old(k.Cur()).sigaction[signum - 1].handler &&
              k.Cur() == old(k.Cur()).(sigaction := old(k.Cur()).sigaction[signum - 1 := SignalAction(handler, restorer)]) &&
              k.task == old(k.task)[k.current := old(k.task[k.current]).(t := k.Cur())]
    ensures k.current == old(k.current) && k.jiffies == old(k.jiffies)
    ensures k.startupTime == old(k.startupTime) && k.lastPid == old(k.lastPid)
  {
    if !Catchable(signum) {
      return -1;
    }
    var t := k.Cur();
    r := t.sigaction[signum - 1].handler;
    k.SetCur(t.(sigaction := t.sigaction[signum - 1 := SignalAction(handler, restorer)]));
  }

  /**
   * The action `sys_sigaction` keeps from the user's `action`, for the
   * signal whose mask bit is `bit`: its mask cleared under SA_NOMASK,
   * else widened by the signal itself.
   */
  function Installed(a: SigAction, bit: bv32): (r: SigAction)
    requires bit != 0
    ensures r.handler == a.handler && r.flags == a.flags && r.restorer == a.restorer
    ensures a.flags & SA_NOMASK != 0 ==> r.mask == 0
    ensures a.flags & SA_NOMASK == 0 ==> r.mask & bit != 0 && r.mask & a.mask == a.mask
  {
    if a.flags & SA_NOMASK != 0 then a.(mask := 0)
    else
      OrKeeps(a.mask, bit);
      a.(mask := a.mask | bit)
  }

  /** Or-ing a non-zero `b` into `m` keeps every bit of both, so the result meets `b`. */
  lemma OrKeeps(m: bv32, b: bv32)
    requires b != 0
    ensures (m | b) & b == b && (m | b) & m == m && (m | b) & b != 0
  {
  }

  /**
   * `sys_sigaction(signum, action, oldaction)`: -1 for a signal that
   * cannot be caught; otherwise the action is installed as `Installed`
   * says and the previous one handed back (`prev`, stored only when
   * `oldaction` is not NULL, i.e. `wantOld`).
   */
  method SysSigaction(k: Kernel, signum: int, action: SigAction, wantOld: bool)
      returns (r: int, prev: Option<SigAction>)
    requires k.Running()
    modifies k
    ensures k.Running()
    ensures !Catchable(signum) ==> r == -1 && prev == None && k.task == old(k.task)
    ensures Catchable(signum) ==>
              r == 0 &&
              prev == (if wantOld then Some(old(k.Cur()).sigaction[signum - 1]) else None) &&
              k.Cur() == old(k.Cur()).(sigaction := old(k.Cur()).sigaction[signum - 1 := Installed(action, Sig(signum))]) &&
              k.task == old(k.task)[k.current := old(k.task[k.current]).(t := k.Cur())]
    ensures k.current == old(k.current) && k.jiffies == old(k.jiffies)
    ensures k.startupTime == old(k.startupTime) && k.lastPid == old(k.lastPid)
  {
    if !Catchable(signum) {
      return -1, None;
    }
    var t := k.Cur();
    prev := if wantOld then Some(t.sigaction[signum - 1]) else None;
    k.SetCur(t.(sigaction := t.sigaction[signum - 1 := Installed(action, Sig(signum))]));
    r := 0;
  }

  /** The registers `do_signal` finds saved by the system-call entry. */
  datatype Regs = Regs(eax: int, ecx: int, edx: int, eflags: int, eip: int, esp: int)

  /** What `do_signal` does with signal `signr`. */
  datatype Delivery =
    | Ignored                                        // SIG_IGN, or SIG_DFL for SIGCHLD
    | Exits(code: bv32)                              // SIG_DFL: `do_exit(1 << (signr - 1))`, its bits
    | Enters(eip: int, esp: int, frame: seq<int>)    // the handler runs with `frame` at `esp`

  /**
   * The longs `do_signal` pushes, lowest address first: the restorer, the
   * signal number, the blocked mask unless SA_NOMASK is set, then `eax`,
   * `ecx`, `edx`, `eflags` and the interrupted `eip`.
   */
  function Frame(sa: SigAction, signr: int, blocked: bv32, regs: Regs): (f: seq<int>)
  {
    [sa.restorer, signr] + (if sa.flags & SA_NOMASK == 0 then [blocked as int] else []) +
    [regs.eax, regs.ecx, regs.edx, regs.eflags, regs.eip]
  }

  /** The frame is 7 longs under SA_NOMASK and 8 otherwise, and it ends with the interrupted address. */
  lemma FrameLayout(sa: SigAction, signr: int, blocked: bv32, regs: Regs)
    ensures var f := Frame(sa, signr, blocked, regs);
            |f| == (if sa.flags & SA_NOMASK != 0 then 7 else 8) &&
            f[0] == sa.restorer && f[1] == signr && f[|f| - 1] == regs.eip && f[|f| - 5] == regs.eax &&
            (sa.flags & SA_NOMASK == 0 ==> f[2] == blocked as int)
  {
  }

  /**
   * `do_signal(signr, …)` on task `t`: the task afterwards and what
   * becomes of the signal. A caught signal moves `eip` to the handler and
   * `esp` down by the frame, a one-shot action falls back to SIG_DFL, and
   * the action's mask is added to the blocked signals after the old mask
   * was saved in the frame.
   */
  function Deliver(t: Task, signr: int, regs: Regs): (r: (Task, Delivery))
    requires t.Valid() && 1 <= signr <= 32
    ensures r.0.Valid()
    ensures var sa := t.sigaction[signr - 1];
            (sa.handler == SIG_IGN ==> r == (t, Ignored)) &&
            (sa.handler == SIG_DFL ==> r == (t, if signr == SIGCHLD then Ignored else Exits(Sig(signr)))) &&
            (sa.handler != SIG_IGN && sa.handler != SIG_DFL ==>
               r.1.Enters? && r.1.eip == sa.handler && r.1.frame == Frame(sa, signr, t.blocked, regs) &&
               r.1.esp == regs.esp - 4 * |r.1.frame| &&
               r.0 == t.(blocked := t.blocked | sa.mask,
                         sigaction := t.sigaction[signr - 1 := if sa.flags & SA_ONESHOT != 0 then sa.(handler := SIG_DFL) else sa]))
  {
    var sa := t.sigaction[signr - 1];
    if sa.handler == SIG_IGN then (t, Ignored)
    else if sa.handler == SIG_DFL then (t, if signr == SIGCHLD then Ignored else Exits(Sig(signr)))
    else
      var f := Frame(sa, signr, t.blocked, regs);
      var acts := if sa.flags & SA_ONESHOT != 0 then t.sigaction[signr - 1 := sa.(handler := SIG_DFL)] else t.sigaction;
      (t.(blocked := t.blocked | sa.mask, sigaction := acts), Enters(sa.handler, regs.esp - 4 * |f|, f))
  }

  /** `do_signal` for the running task, as `Deliver` says. */
  method DoSignal(k: Kernel, signr: int, regs: Regs) returns (d: Delivery)
    requires k.Running() && 1 <= signr <= 32
    modifies k
    ensures k.Running()
    ensures (k.Cur(), d) == Deliver(old(k.Cur()), signr, regs)
    ensures k.task == old(k.task)[k.current := old(k.task[k.current]).(t := k.Cur())]
    ensures k.current == old(k.current) && k.jiffies == old(k.jiffies)
    ensures k.startupTime == old(k.startupTime) && k.lastPid == old(k.lastPid)
  {
    var r := Deliver(k.Cur(), signr, regs);
    k.SetCur(r.0);
    d := r.1;
  }

  /**
   * A handler set by `sys_signal` runs once: the first delivery pushes a
   * 7-long frame and leaves the blocked mask alone, and the next delivery
   * of the same signal takes the default action.
   */
  lemma SignalIsOneShot(t: Task, signr: int, handler: int, restorer: int, regs: Regs, regs2: Regs)
    requires t.Valid() && Catchable(signr) && handler != SIG_DFL && handler != SIG_IGN
    requires t.sigaction[signr - 1] == SignalAction(handler, restorer)
    ensures var (t1, d1) := Deliver(t, signr, regs);
            d1.Enters? && d1.eip == handler && |d1.frame| == 7 && d1.esp == regs.esp - 28 &&
            t1.blocked == t.blocked &&
            Deliver(t1, signr, regs2) == (t1, if signr == SIGCHLD then Ignored else Exits(Sig(signr)))
  {
    var sa := SignalAction(handler, restorer);
    assert sa.flags & SA_NOMASK != 0 && sa.flags & SA_ONESHOT != 0;
    FrameLayout(sa, signr, t.blocked, regs);
  }

  /**
   * An action installed by `sys_sigaction` without SA_NOMASK blocks its
   * own signal while the handler runs, and the frame carries the mask to
   * restore.
   */
  lemma SigactionBlocksItself(t: Task, signr: int, a: SigAction, regs: Regs)
    requires t.Valid() && Catchable(signr) && a.handler != SIG_DFL && a.handler != SIG_IGN
    requires a.flags & SA_NOMASK == 0
    requires t.sigaction[signr - 1] == Installed(a, Sig(signr))
    ensures var (t1, d1) := Deliver(t, signr, regs);
            t1.blocked == t.blocked | Installed(a, Sig(signr)).mask && |d1.frame| == 8 && d1.frame[2] == t.blocked as int
  {
    FrameLayout(Installed(a, Sig(signr)), signr, t.blocked, regs);
  }

  /** `sys_sigpending`: the signals that are both pending and blocked. */
  function Pending(t: Task): (set_: bv32)
    ensures set_ & !t.signal == 0 && set_ & !t.blocked == 0
    ensures t.signal & t.blocked & !set_ == 0
  {
    t.blocked & t.signal
  }
}
