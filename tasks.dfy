/*
 * The task table of kernel/sched.c: `task[64]`, `current`, `jiffies`,
 * `startup_time` and the `last_pid` of kernel/fork.c, with the signal
 * constants of <signal.h> and <sys/wait.h>.
 *
 * `task[k]` is a pointer to a task structure held in a page of its own;
 * a slot here holds the structure and the address of that page.
 * `current` is the slot index of the running task. Slot 0 holds the idle
 * task, which is never freed.
 */
module Tasks {
  import opened Layout
  import opened Records
  import opened Desc

  // Signal numbers, sigaction flags and waitpid options of Linux 0.11
  const SIGHUP: nat := 1
  const SIGKILL: nat := 9
  const SIGSEGV: nat := 11
  const SIGPIPE: nat := 13
  const SIGALRM: nat := 14
  const SIGCHLD: nat := 17
  const SIGSTOP: nat := 19
  const SA_NOMASK: bv32 := 0x4000_0000
  const SA_ONESHOT: bv32 := 0x8000_0000
  const WNOHANG: int := 1
  const WUNTRACED: int := 2

  /** `_S(nr)`: the bit of signal `nr` in a signal word. */
  function Sig(nr: nat): (b: bv32)
    requires 1 <= nr <= 32
    ensures b != 0 && b & (b - 1) == 0
  {
    1 << (nr - 1)
  }

  /** `_BLOCKABLE`: every signal but SIGKILL and SIGSTOP. */
  const BLOCKABLE: bv32 := !(Sig(SIGKILL) | Sig(SIGSTOP))

  /**
   * A 32-bit `long` holding `x`: the value congruent to `x` modulo 2^32
   * in the signed range, which is `x` itself when `x` fits.
   */
  function Long(x: int): (r: i32)
    ensures (x - r) % 0x1_0000_0000 == 0
    ensures -0x8000_0000 <= x < 0x8000_0000 ==> r == x
  {
    (x + 0x8000_0000) % 0x1_0000_0000 - 0x8000_0000
  }

  /** C's `/` on a positive divisor: the quotient truncated toward zero. */
  function Quot(a: int, b: int): (r: int)
    requires b > 0
  {
    if a >= 0 then a / b else -((-a) / b)
  }

  /** The truncated quotient has the sign of `a`, and it leaves a remainder smaller than `b` in size. */
  lemma QuotTruncates(a: int, b: int)
    requires b > 0
    ensures var r := Quot(a, b);
            (a >= 0 ==> 0 <= r * b <= a < r * b + b) &&
            (a < 0 ==> r * b - b < a <= r * b <= 0)
  {
    var n := if a >= 0 then a else -a;
    DivBounds(n, b);
    var p := (n / b) * b;
    if a < 0 {
      assert Quot(a, b) * b == -p;
    }
  }

  /** Euclidean division of a natural number: a non-negative multiple of `b` at most `n`, less than `b` below it. */
  lemma DivBounds(n: int, b: int)
    requires n >= 0 && b > 0
    ensures 0 <= (n / b) * b <= n < (n / b) * b + b
  {
    var q := n / b;
    assert n == q * b + n % b;
    assert q >= 0;
  }

  /** The largest value of the 32-bit `long` that holds `last_pid`. */
  const MAX_PID: int := 0x7fff_ffff

  /** A slot of `task[]`: NULL, or a task structure and the page it lives in. */
  datatype Slot = Empty | Used(t: Task, page: int)

  class Kernel {
    var task: seq<Slot>
    var current: nat
    var jiffies: nat
    var startupTime: int
    var lastPid: int

    /**
     * The table has its 64 slots with the idle task in slot 0; each task
     * has its 32 actions and 20 descriptors; `last_pid` has not wrapped.
     */
    ghost predicate Valid()
      reads this
    {
      |task| == NR_TASKS && current < NR_TASKS && task[0].Used? && 0 <= lastPid <= MAX_PID &&
      forall k :: 0 <= k < NR_TASKS && task[k].Used? ==> task[k].t.Valid()
    }

    /** `current` points at a task. */
    ghost predicate Running()
      reads this
    {
      Valid() && task[current].Used?
    }

    /** `*current`. */
    function Cur(): (t: Task)
      reads this
      requires Running()
      ensures t.Valid()
    {
      task[current].t
    }

    /** Store `t` as `*current`; nothing else changes. */
    method SetCur(t: Task)
      requires Running() && t.Valid()
      modifies this
      ensures Running() && Cur() == t
      ensures task == old(task)[current := old(task[current]).(t := t)]
      ensures current == old(current) && jiffies == old(jiffies)
      ensures startupTime == old(startupTime) && lastPid == old(lastPid)
    {
      task := task[current := task[current].(t := t)];
    }
  }
}
