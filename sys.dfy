/*
 * kernel/sys.c: the credential rules of `setreuid`/`setregid`, setting
 * the clock, the break, process groups and sessions, and the file
 * creation mask. `suser()` is the caller's privilege and comes in as a
 * parameter.
 */
module Sys {
  import opened Layout
  import opened Records
  import opened Desc
  import opened Tasks
  import Exit

  /** An `int` stored into an `unsigned short` id field: its low 16 bits. */
  function Id(x: int): (r: u16)
    ensures (x - r) % 0x1_0000 == 0
    ensures 0 <= x < 0x1_0000 ==> r == x
  {
    x % 0x1_0000
  }

  /**
   * `sys_setreuid(ruid, euid)` on task `t`: a positive `ruid` needs to be
   * the effective or the real uid, a positive `euid` the old real or the
   * effective uid, unless the caller is the superuser; a refused `euid`
   * puts the real uid back. The ids are compared as `int`s and stored in
   * the 16-bit fields.
   */
  function Setreuid(t: Task, ruid: int, euid: int, suser: bool): (res: (Task, int))
    ensures res.0 == t.(uid := res.0.uid, euid := res.0.euid)
    ensures res.1 == 0 || res.1 == -EPERM
  {
    var oldRuid := t.uid;
    if ruid > 0 && !(t.euid == ruid || oldRuid == ruid || suser) then (t, -EPERM)
    else
      var t1 := if ruid > 0 then t.(uid := Id(ruid)) else t;
      if euid > 0 then
        if oldRuid == euid || t1.euid == euid || suser then (t1.(euid := Id(euid)), 0)
        else (t1.(uid := oldRuid), -EPERM)
      else (t1, 0)
  }

  /**
   * `sys_setreuid` is all or nothing, and an unprivileged caller can only
   * exchange its real and effective uids: each new id is one of the two
   * old ones. The superuser is never refused, and what it asks for is
   * kept modulo 2^16.
   */
  lemma SetreuidRules(t: Task, ruid: int, euid: int, suser: bool)
    ensures var (t1, r) := Setreuid(t, ruid, euid, suser);
            (r == -EPERM ==> t1 == t) &&
            (r == 0 ==> t1 == t.(uid := if ruid > 0 then Id(ruid) else t.uid,
                                 euid := if euid > 0 then Id(euid) else t.euid)) &&
            (r == 0 || r == -EPERM) &&
            (!suser ==> t1.uid in {t.uid, t.euid} && t1.euid in {t.uid, t.euid}) &&
            (suser ==> r == 0)
  {
  }

  /** The superuser's `setreuid(70000, -1)` leaves the real uid 4464. */
  lemma SetreuidKeepsLowBits(t: Task)
    ensures Setreuid(t, 70000, -1, true) == (t.(uid := 4464), 0)
  {
    assert Id(70000) == 4464;
  }

  /**
   * `sys_setregid(rgid, egid)` on task `t`, as written: a positive `rgid`
   * must equal the real gid unless the caller is the superuser, a
   * positive `egid` one of the real, effective or saved gids; a refused
   * `egid` does not put the real gid back. The ids are stored in the
   * 16-bit fields.
   */
  function Setregid(t: Task, rgid: int, egid: int, suser: bool): (res: (Task, int))
    ensures res.0 == t.(gid := res.0.gid, egid := res.0.egid)
    ensures res.1 == 0 || res.1 == -EPERM
  {
    if rgid > 0 && !(t.gid == rgid || suser) then (t, -EPERM)
    else
      var t1 := if rgid > 0 then t.(gid := Id(rgid)) else t;
      if egid > 0 then
        if t1.gid == egid || t1.egid == egid || t1.sgid == egid || suser then (t1.(egid := Id(egid)), 0)
        else (t1, -EPERM)
      else (t1, 0)
  }

  /**
   * The missing roll-back of `sys_setregid` does no harm: a real gid is
   * only accepted when it is the old one or the caller is the superuser,
   * and the superuser's `egid` is never refused. So a refusal leaves the
   * task as it was, and an unprivileged caller keeps its real gid and can
   * only pick an effective gid among its three.
   */
  lemma SetregidRules(t: Task, rgid: int, egid: int, suser: bool)
    ensures var (t1, r) := Setregid(t, rgid, egid, suser);
            (r == -EPERM ==> t1 == t) &&
            (r == 0 ==> t1 == t.(gid := if rgid > 0 then Id(rgid) else t.gid,
                                 egid := if egid > 0 then Id(egid) else t.egid)) &&
            (r == 0 || r == -EPERM) &&
            (!suser ==> t1.gid == t.gid && t1.egid in {t.gid, t.egid, t.sgid}) &&
            (suser ==> r == 0)
  {
  }

  /** `sys_setreuid` on the running task, as `Setreuid` says. */
  method SysSetreuid(k: Kernel, ruid: int, euid: int, suser: bool) returns (r: int)
    requires k.Running()
    modifies k
    ensures k.Running()
    ensures (k.Cur(), r) == Setreuid(old(k.Cur()), ruid, euid, suser)
    ensures k.task == old(k.task)[k.current := old(k.task[k.current]).(t := k.Cur())]
    ensures k.current == old(k.current) && k.jiffies == old(k.jiffies)
    ensures k.startupTime == old(k.startupTime) && k.lastPid == old(k.lastPid)
  {
    var t := k.Cur();
    var oldRuid := t.uid;
    if ruid > 0 {
      if t.euid == ruid || oldRuid == ruid || suser {
        t := t.(uid := Id(ruid));
      } else {
        return -EPERM;
      }
    }
    if euid > 0 {
      if oldRuid == euid || t.euid == euid || suser {
        t := t.(euid := Id(euid));
      } else {
        t := t.(uid := oldRuid);
        k.SetCur(t);
        return -EPERM;
      }
    }
    k.SetCur(t);
    r := 0;
  }

  /** `sys_setregid` on the running task, as `Setregid` says. */
  method SysSetregid(k: Kernel, rgid: int, egid: int, suser: bool) returns (r: int)
    requires k.Running()
    modifies k
    ensures k.Running()
    ensures (k.Cur(), r) == Setregid(old(k.Cur()), rgid, egid, suser)
    ensures k.task == old(k.task)[k.current := old(k.task[k.current]).(t := k.Cur())]
    ensures k.current == old(k.current) && k.jiffies == old(k.jiffies)
    ensures k.startupTime == old(k.startupTime) && k.lastPid == old(k.lastPid)
  {
    var t := k.Cur();
    if rgid > 0 {
      if t.gid == rgid || suser {
        t := t.(gid := Id(rgid));
      } else {
        return -EPERM;
      }
    }
    if egid > 0 {
      if t.gid == egid || t.egid == egid || t.sgid == egid || suser {
        t := t.(egid := Id(egid));
      } else {
        k.SetCur(t);
        return -EPERM;
      }
    }
    k.SetCur(t);
    r := 0;
  }

  /**
   * `sys_stime(t)`: only the superuser may set the clock; afterwards the
   * time of day `CURRENT_TIME` reads `time`.
   */
  method SysStime(k: Kernel, time: int, suser: bool) returns (r: int)
    modifies k
    ensures !suser ==> r == -EPERM && k.startupTime == old(k.startupTime)
    ensures suser ==> r == 0 && CurrentTime(k.startupTime, k.jiffies) == time
    ensures k.task == old(k.task) && k.current == old(k.current) && k.jiffies == old(k.jiffies)
    ensures k.lastPid == old(k.lastPid)
  {
    if !suser {
      return -EPERM;
    }
    k.startupTime := time - k.jiffies / HZ;
    r := 0;
  }

  /** An `unsigned long`: the value modulo 2^32. */
  function U32(x: int): (r: int)
    ensures 0 <= r < 0x1_0000_0000
    ensures 0 <= x < 0x1_0000_0000 ==> r == x
  {
    x % 0x1_0000_0000
  }

  /**
   * The break after `sys_brk(end)`: `end` (an unsigned long) is taken
   * when it lies between the end of the code and 16 KB below the start
   * of the stack, compared unsigned; the old break stays otherwise.
   */
  function Brk(t: Task, end: int): (b: int)
    ensures b == t.brk || b == U32(end)
    ensures U32(t.endCode) <= U32(end) < U32(t.startStack - 16384) ==> b == U32(end)
    ensures !(U32(t.endCode) <= U32(end) < U32(t.startStack - 16384)) ==> b == t.brk
  {
    var e := U32(end);
    if e >= U32(t.endCode) && e < U32(t.startStack - 16384) then e else t.brk
  }

  /** A stack that starts below 16 KB wraps the limit around: every end past the code is taken. */
  lemma BrkLowStack(t: Task, end: int)
    requires 0 <= t.startStack < 16384 && 0 <= t.endCode
    requires t.endCode <= end < 0x1_0000_0000 - 16384
    ensures Brk(t, end) == end
  {
  }

  /** `sys_brk` on the running task: sets the break as `Brk` says and returns it. */
  method SysBrk(k: Kernel, end: int) returns (r: int)
    requires k.Running()
    modifies k
    ensures k.Running() && r == Brk(old(k.Cur()), end)
    ensures k.Cur() == old(k.Cur()).(brk := r)
    ensures k.task == old(k.task)[k.current := old(k.task[k.current]).(t := k.Cur())]
    ensures k.current == old(k.current) && k.jiffies == old(k.jiffies)
    ensures k.startupTime == old(k.startupTime) && k.lastPid == old(k.lastPid)
  {
    var t := k.Cur();
    var e := U32(end);
    if e >= U32(t.endCode) && e < U32(t.startStack - 16384) {
      t := t.(brk := e);
    }
    k.SetCur(t);
    r := t.brk;
  }

  /**
   * `sys_setpgid(pid, pgid)` by the task in slot `me`, a 0 standing for
   * the caller's pid: the first task with that pid joins group `pgid`,
   * unless it leads a session or belongs to another one (-EPERM); no
   * such task gives -ESRCH.
   */
  function Setpgid(ts: seq<Slot>, me: nat, pid: int, pgid: int): (r: (seq<Slot>, int))
    requires me < |ts| && ts[me].Used?
    ensures |r.0| == |ts|
    ensures var p := if pid == 0 then ts[me].t.pid else pid;
            var i := Exit.PidSlot(ts, p, 0);
            (i == NONE ==> r == (ts, -ESRCH)) &&
            (i != NONE && (ts[i].t.leader || ts[i].t.session != ts[me].t.session) ==> r == (ts, -EPERM)) &&
            (r.1 == 0 <==> i != NONE && !ts[i].t.leader && ts[i].t.session == ts[me].t.session) &&
            (r.1 == 0 ==> r.0 == ts[i := ts[i].(t := ts[i].t.(pgrp := if pgid == 0 then ts[me].t.pid else pgid))])
  {
    var cur := ts[me].t;
    var p := if pid == 0 then cur.pid else pid;
    var g := if pgid == 0 then cur.pid else pgid;
    var i := Exit.PidSlot(ts, p, 0);
    if i == NONE then (ts, -ESRCH)
    else if ts[i].t.leader then (ts, -EPERM)
    else if ts[i].t.session != cur.session then (ts, -EPERM)
    else (ts[i := ts[i].(t := ts[i].t.(pgrp := g))], 0)
  }

  /** `sys_setpgid` on the task table, scanning it as `Setpgid` says. */
  method SysSetpgid(k: Kernel, pid: int, pgid: int) returns (r: int)
    requires k.Running()
    modifies k
    ensures k.Running()
    ensures (k.task, r) == Setpgid(old(k.task), old(k.current), pid, pgid)
    ensures k.current == old(k.current) && k.jiffies == old(k.jiffies)
    ensures k.startupTime == old(k.startupTime) && k.lastPid == old(k.lastPid)
  {
    var cur := k.Cur();
    var p := if pid == 0 then cur.pid else pid;
    var g := if pgid == 0 then cur.pid else pgid;
    var i := Exit.FindPid(k.task, p);
    if i == NONE {
      return -ESRCH;
    }
    var s := k.task[i];
    if s.t.leader || s.t.session != cur.session {
      return -EPERM;
    }
    var ts := k.task[i := s.(t := s.t.(pgrp := g))];
    assert forall j :: 0 <= j < NR_TASKS && ts[j].Used? ==> ts[j].t.Valid() by {
      assert forall j :: 0 <= j < NR_TASKS && j != i ==> ts[j] == k.task[j];
    }
    k.task := ts;
    r := 0;
  }

  /**
   * `sys_setsid` on task `t`: a session leader that is not the superuser
   * is refused; otherwise the task leads a new session and group named
   * by its pid, without a terminal, and the group is returned.
   */
  function Setsid(t: Task, suser: bool): (r: (Task, int))
    ensures t.leader && !suser ==> r == (t, -EPERM)
    ensures !(t.leader && !suser) ==>
              r.0 == t.(leader := true, session := t.pid, pgrp := t.pid, tty := -1) && r.1 == t.pid
  {
    if t.leader && !suser then (t, -EPERM)
    else (t.(leader := true, session := t.pid, pgrp := t.pid, tty := -1), t.pid)
  }

  /**
   * Once a task has made itself a session leader, `setpgid` can no longer
   * move it to another group, whoever names its (nonzero) pid.
   */
  lemma SetsidPinsGroup(ts: seq<Slot>, me: nat, caller: nat, suser: bool, pgid: int)
    requires me < |ts| && caller < |ts| && ts[me].Used? && ts[caller].Used?
    requires ts[me].t.pid != 0 && Exit.PidSlot(ts, ts[me].t.pid, 0) == me
    requires Setsid(ts[me].t, suser).1 != -EPERM
    ensures var ts1 := ts[me := ts[me].(t := Setsid(ts[me].t, suser).0)];
            Setpgid(ts1, caller, ts[me].t.pid, pgid) == (ts1, -EPERM)
  {
    var ts1 := ts[me := ts[me].(t := Setsid(ts[me].t, suser).0)];
    var p := ts[me].t.pid;
    FirstSlotKept(ts, ts1, p, me, 0);
    assert ts1[me].t.leader;
  }

  /** A table that agrees before slot `me` and still has the pid at `me` finds it there first. */
  lemma {:induction false} FirstSlotKept(ts: seq<Slot>, ts1: seq<Slot>, p: int, me: nat, from: nat)
    requires |ts1| == |ts| && from <= me < |ts| && Exit.PidSlot(ts, p, from) == me
    requires ts1[me].Used? && ts1[me].t.pid == p
    requires forall j :: from <= j < me ==> ts1[j] == ts[j]
    ensures Exit.PidSlot(ts1, p, from) == me
    decreases me - from
  {
    if from < me {
      FirstSlotKept(ts, ts1, p, me, from + 1);
    }
  }

  /** `sys_setsid` on the running task, as `Setsid` says. */
  method SysSetsid(k: Kernel, suser: bool) returns (r: int)
    requires k.Running()
    modifies k
    ensures k.Running()
    ensures (k.Cur(), r) == Setsid(old(k.Cur()), suser)
    ensures k.task == old(k.task)[k.current := old(k.task[k.current]).(t := k.Cur())]
    ensures k.current == old(k.current) && k.jiffies == old(k.jiffies)
    ensures k.startupTime == old(k.startupTime) && k.lastPid == old(k.lastPid)
  {
    var t := k.Cur();
    if t.leader && !suser {
      return -EPERM;
    }
    t := t.(leader := true, session := t.pid, pgrp := t.pid, tty := -1);
    k.SetCur(t);
    r := t.pgrp;
  }

  /** `mask & 0777` on a two's-complement `int`: its low nine bits. */
  function ModeBits(mask: int): (m: int)
    ensures 0 <= m < 0x200 && (mask - m) % 0x200 == 0
    ensures 0 <= mask < 0x200 ==> m == mask
  {
    mask % 0x200
  }

  /**
   * `sys_umask(mask)`: the old mask is returned and the low nine bits of
   * `mask` become the new one; handing the returned value back restores
   * the old mask.
   */
  method SysUmask(k: Kernel, mask: int) returns (prev: int)
    requires k.Running()
    modifies k
    ensures k.Running() && prev == old(k.Cur()).umask
    ensures k.Cur() == old(k.Cur()).(umask := ModeBits(mask))
    ensures 0 <= prev < 0x200 ==> k.Cur().(umask := ModeBits(prev)) == old(k.Cur())
    ensures k.task == old(k.task)[k.current := old(k.task[k.current]).(t := k.Cur())]
    ensures k.current == old(k.current) && k.jiffies == old(k.jiffies)
    ensures k.startupTime == old(k.startupTime) && k.lastPid == old(k.lastPid)
  {
    var t := k.Cur();
    prev := t.umask;
    k.SetCur(t.(umask := ModeBits(mask)));
  }
}
