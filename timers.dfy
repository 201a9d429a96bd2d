/*
 * The timer list of kernel/sched.c: the 64 `timer_list` entries and the
 * list head `next_timer`.
 *
 * The list is a delta list: it is kept in order of expiry and each
 * entry's `jiffies` counts the ticks after the entry before it, so the
 * due time of an entry is the sum of the deltas up to and including it.
 * A slot is free when its function is NULL (`fn` 0).
 */
module Timers {
  import opened Records

  const TIME_REQUESTS: nat := 64

  /** A `struct timer_list`: `next` is a slot index or NONE. */
  datatype Timer = Timer(jiffies: int, fn: int, next: int)

  /** Every entry of `q` names a slot of `t`. */
  ghost predicate InRange(t: seq<Timer>, q: seq<nat>)
  {
    forall i :: 0 <= i < |q| ==> q[i] < |t|
  }

  /** `q` is the list of slots reached from `x` by following `next`. */
  ghost predicate IsList(t: seq<Timer>, x: int, q: seq<nat>)
  {
    InRange(t, q) &&
    (forall i, j :: 0 <= i < j < |q| ==> q[i] != q[j]) &&
    x == (if q == [] then NONE else q[0]) &&
    forall i :: 0 <= i < |q| ==> t[q[i]].next == (if i + 1 < |q| then q[i + 1] else NONE)
  }

  /** The sum of the deltas of `q`. */
  ghost function Sum(t: seq<Timer>, q: seq<nat>): (r: int)
    requires InRange(t, q)
  {
    if q == [] then 0 else Sum(t, q[..|q| - 1]) + t[q[|q| - 1]].jiffies
  }

  /** The number of ticks from now until entry `i` of the list expires. */
  ghost function Due(t: seq<Timer>, q: seq<nat>, i: nat): (r: int)
    requires InRange(t, q) && i < |q|
  {
    Sum(t, q[..i + 1])
  }

  /** The functions of the entries of `q`, in list order. */
  ghost function Fns(t: seq<Timer>, q: seq<nat>): (r: seq<int>)
    requires InRange(t, q)
    ensures |r| == |q|
  {
    if q == [] then [] else Fns(t, q[..|q| - 1]) + [t[q[|q| - 1]].fn]
  }

  /**
   * The list is in order of expiry: the head is due in at least one tick
   * and no delta is negative.
   */
  ghost predicate Ordered(t: seq<Timer>, q: seq<nat>)
    requires InRange(t, q)
  {
    forall i :: 0 <= i < |q| ==> (if i == 0 then 1 else 0) <= t[q[i]].jiffies
  }

  /**
   * The position at which add_timer links a timer due in `jif` ticks: it
   * walks past every entry, from position `m` on, that expires strictly earlier.
   */
  ghost function Depth(t: seq<Timer>, q: seq<nat>, jif: int, m: nat): (d: nat)
    requires InRange(t, q) && m <= |q|
    ensures m <= d <= |q|
    decreases |q| - m
  {
    if m < |q| && Due(t, q, m) < jif then Depth(t, q, jif, m + 1) else m
  }

  /** The table after the head entry has been charged one tick. */
  ghost function Tick(t: seq<Timer>, q: seq<nat>): (r: seq<Timer>)
    requires InRange(t, q)
    ensures |r| == |t|
  {
    if q == [] then t else t[q[0] := t[q[0]].(jiffies := t[q[0]].jiffies - 1)]
  }

  /** The number of entries from position `m` on whose delta has run out. */
  ghost function Expiring(t: seq<Timer>, q: seq<nat>, m: nat): (f: nat)
    requires InRange(t, q) && m <= |q|
    ensures m <= f <= |q|
    decreases |q| - m
  {
    if m < |q| && t[q[m]].jiffies <= 0 then Expiring(t, q, m + 1) else m
  }

  /** `t1` is `t` after the first `f` entries of `q` were charged a tick and fired. */
  ghost predicate Expired(t: seq<Timer>, q: seq<nat>, f: nat, t1: seq<Timer>)
    requires InRange(t, q) && f <= |q|
  {
    var u := Tick(t, q);
    |t1| == |t| &&
    forall i :: 0 <= i < |t| ==> t1[i] == (if i in q[..f] then u[i].(fn := 0) else u[i])
  }

  /** A table of 64 slots whose list from `h` is `q`, each entry on it holding a function. */
  ghost predicate Listed(t: seq<Timer>, h: int, q: seq<nat>)
  {
    |t| == TIME_REQUESTS && IsList(t, h, q) &&
    forall i :: 0 <= i < |q| ==> t[q[i]].fn != 0
  }

  /** Every slot holding a function is on the list `q`: no timer is lost. */
  ghost predicate Complete(t: seq<Timer>, q: seq<nat>)
  {
    forall p :: 0 <= p < |t| && t[p].fn != 0 ==> p in q
  }

  class TimerList {
    var table: seq<Timer>
    var head: int
    ghost var queue: seq<nat>

    /** `queue` is the list from `next_timer`. */
    ghost predicate Valid()
      reads this
    {
      Listed(table, head, queue)
    }

    /** No armed timer is off the list. */
    ghost predicate Tidy()
      reads this
    {
      Valid() && Complete(table, queue)
    }
  }

  // ---------------------------------------------------------------------
  // Sums of deltas
  // ---------------------------------------------------------------------

  lemma {:induction false} SumAppend(t: seq<Timer>, a: seq<nat>, b: seq<nat>)
    requires InRange(t, a) && InRange(t, b)
    ensures InRange(t, a + b) && Sum(t, a + b) == Sum(t, a) + Sum(t, b)
    decreases |b|
  {
    if b == [] {
      assert a + b == a;
    } else {
      var b' := b[..|b| - 1];
      assert (a + b)[..|a + b| - 1] == a + b';
      SumAppend(t, a, b');
    }
  }

  /** The sum depends only on the deltas of the slots on the list. */
  lemma {:induction false} SumFrame(t: seq<Timer>, u: seq<Timer>, q: seq<nat>)
    requires InRange(t, q) && InRange(u, q)
    requires forall i :: 0 <= i < |q| ==> t[q[i]].jiffies == u[q[i]].jiffies
    ensures Sum(t, q) == Sum(u, q)
    decreases |q|
  {
    if q != [] {
      SumFrame(t, u, q[..|q| - 1]);
    }
  }

  lemma SumOne(t: seq<Timer>, x: nat)
    requires x < |t|
    ensures InRange(t, [x]) && Sum(t, [x]) == t[x].jiffies
  {
    assert [x][..0] == [];
  }

  /** Each due time is the one before it plus the entry's delta. */
  lemma DueStep(t: seq<Timer>, q: seq<nat>, i: nat)
    requires InRange(t, q) && i < |q|
    ensures Due(t, q, i) == Sum(t, q[..i]) + t[q[i]].jiffies
    ensures Due(t, q, i) == (if i == 0 then 0 else Due(t, q, i - 1)) + t[q[i]].jiffies
  {
    assert q[..i + 1][..i] == q[..i];
    if i == 0 {
      assert q[..0] == [];
    } else {
      assert q[..i] == q[..i - 1 + 1];
    }
  }

  /** Entries before the depth expire earlier than `jif`; the one at the depth does not. */
  lemma {:induction false} DepthBounds(t: seq<Timer>, q: seq<nat>, jif: int, m: nat)
    requires InRange(t, q) && m <= |q|
    ensures var d := Depth(t, q, jif, m);
            (forall i :: m <= i < d ==> Due(t, q, i) < jif) &&
            (d < |q| ==> jif <= Due(t, q, d))
    decreases |q| - m
  {
    if m < |q| && Due(t, q, m) < jif {
      DepthBounds(t, q, jif, m + 1);
    }
  }

  // ---------------------------------------------------------------------
  // Inserting into the list
  // ---------------------------------------------------------------------

  /** The first slot with a NULL function, or the table size when every slot is taken. */
  method FirstFree(t: seq<Timer>) returns (p: nat)
    ensures p <= |t|
    ensures p < |t| ==> t[p].fn == 0
    ensures forall i :: 0 <= i < p ==> t[i].fn != 0
  {
    p := 0;
    while p < |t| && t[p].fn != 0
      invariant p <= |t|
      invariant forall i :: 0 <= i < p ==> t[i].fn != 0
    {
      p := p + 1;
    }
  }

  /** Some slot is free. */
  ghost predicate HasFree(t: seq<Timer>)
  {
    exists i :: 0 <= i < |t| && t[i].fn == 0
  }

  /**
   * `t1, q1` is `t, q` with a timer for `fn`, due in `jif` ticks, linked
   * into the first free slot `p` at its place in order of expiry: every
   * other entry keeps its function and its due time.
   */
  ghost predicate Inserted(t: seq<Timer>, q: seq<nat>, t1: seq<Timer>, q1: seq<nat>,
                           p: int, jif: int, fn: int)
    requires InRange(t, q)
  {
    var d := Depth(t, q, jif, 0);
    0 <= p < |t| && t[p].fn == 0 && (forall i :: 0 <= i < p ==> t[i].fn != 0) &&
    |t1| == |t| && InRange(t1, q1) &&
    q1 == q[..d] + [p] + q[d..] && t1[p].fn == fn &&
    (forall i :: 0 <= i < |q| ==> t1[q[i]].fn == t[q[i]].fn) &&
    (forall i :: 0 <= i < d ==> Due(t1, q1, i) == Due(t, q, i)) &&
    Due(t1, q1, d) == jif &&
    (forall i :: d <= i < |q| ==> Due(t1, q1, i + 1) == Due(t, q, i))
  }

  /** On an ordered list the due times start at one tick and never decrease. */
  lemma {:induction false} DueMono(t: seq<Timer>, q: seq<nat>, a: nat, b: nat)
    requires InRange(t, q) && Ordered(t, q) && a <= b < |q|
    ensures 1 <= Due(t, q, a) <= Due(t, q, b)
    decreases b
  {
    DueStep(t, q, b);
    if a < b {
      DueMono(t, q, a, b - 1);
    } else if b > 0 {
      DueMono(t, q, 0, b - 1);
    }
  }

  /** Linking a timer in order of expiry keeps the list ordered. */
  lemma InsertKeepsOrder(t: seq<Timer>, q: seq<nat>, t1: seq<Timer>, q1: seq<nat>,
                         p: int, jif: int, fn: int)
    requires InRange(t, q) && Ordered(t, q) && 0 < jif
    requires Inserted(t, q, t1, q1, p, jif, fn)
    ensures Ordered(t1, q1)
  {
    forall i | 0 <= i < |q1|
      ensures (if i == 0 then 1 else 0) <= t1[q1[i]].jiffies
    {
      InsertOrderAt(t, q, t1, q1, p, jif, fn, i);
    }
  }

  /** Entry `i` of the list after the insertion has a delta that keeps it in order. */
  lemma InsertOrderAt(t: seq<Timer>, q: seq<nat>, t1: seq<Timer>, q1: seq<nat>,
                      p: int, jif: int, fn: int, i: nat)
    requires InRange(t, q) && Ordered(t, q) && 0 < jif
    requires Inserted(t, q, t1, q1, p, jif, fn) && i < |q1|
    ensures (if i == 0 then 1 else 0) <= t1[q1[i]].jiffies
  {
    var d := Depth(t, q, jif, 0);
    DepthBounds(t, q, jif, 0);
    DueStep(t1, q1, i);
    var prev := if i == 0 then 0 else Due(t1, q1, i - 1);
    assert t1[q1[i]].jiffies == Due(t1, q1, i) - prev;
    if i < d {
      DueStep(t, q, i);
      assert Due(t1, q1, i) == Due(t, q, i);
      assert prev == if i == 0 then 0 else Due(t, q, i - 1);
    } else if i == d {
      assert Due(t1, q1, i) == jif;
      assert prev == if i == 0 then 0 else Due(t, q, i - 1);
    } else {
      DueStep(t, q, i - 1);
      assert Due(t1, q1, i) == Due(t, q, i - 1);
      assert prev == if i - 1 == d then jif else Due(t, q, i - 2);
    }
  }

  /**
   * `u` is `t` with slot `p` holding `fn`, `rem` ticks and a link to
   * entry `m` of `q`, entry `m - 1` linking to `p`, and entry `m` charged
   * `rem` ticks less: every other slot is as it was.
   */
  ghost predicate Relinked(t: seq<Timer>, q: seq<nat>, u: seq<Timer>, m: nat, p: nat, rem: int, fn: int)
    requires InRange(t, q)
  {
    m <= |q| && p < |t| && |u| == |t| &&
    u[p] == Timer(rem, fn, if m < |q| then q[m] else NONE) &&
    (0 < m ==> u[q[m - 1]] == t[q[m - 1]].(next := p)) &&
    (m < |q| ==> u[q[m]] == t[q[m]].(jiffies := t[q[m]].jiffies - rem)) &&
    forall i :: 0 <= i < |t| && i != p && (m == 0 || i != q[m - 1]) && (m == |q| || i != q[m]) ==> u[i] == t[i]
  }

  /** The relinked table holds the list with `p` at position `m`, and loses no timer. */
  lemma RelinkedList(t: seq<Timer>, h: int, q: seq<nat>, u: seq<Timer>, m: nat, p: nat, rem: int, fn: int)
    requires Listed(t, h, q) && p !in q && fn != 0
    requires Relinked(t, q, u, m, p, rem, fn)
    ensures Listed(u, if m == 0 then p else h, q[..m] + [p] + q[m..])
    ensures Complete(t, q) ==> Complete(u, q[..m] + [p] + q[m..])
  {
    var q1 := q[..m] + [p] + q[m..];
    RelinkedShape(t, q, u, m, p, rem, fn, q1);
    assert q1[0] == (if m == 0 then p else q[0]);
    assert IsList(u, if m == 0 then p else h, q1);
    if Complete(t, q) {
      RelinkedComplete(t, q, u, m, p, rem, fn);
    }
  }

  lemma RelinkedShape(t: seq<Timer>, q: seq<nat>, u: seq<Timer>, m: nat, p: nat, rem: int, fn: int, q1: seq<nat>)
    requires InRange(t, q) && p !in q && (forall a, b :: 0 <= a < b < |q| ==> q[a] != q[b])
    requires forall i :: 0 <= i < |q| ==> t[q[i]].next == (if i + 1 < |q| then q[i + 1] else NONE)
    requires Relinked(t, q, u, m, p, rem, fn)
    requires q1 == q[..m] + [p] + q[m..]
    ensures InRange(u, q1) && (forall a, b :: 0 <= a < b < |q1| ==> q1[a] != q1[b])
    ensures forall i :: 0 <= i < |q1| ==> u[q1[i]].next == (if i + 1 < |q1| then q1[i + 1] else NONE)
    ensures (forall i :: 0 <= i < |q| ==> t[q[i]].fn != 0) && fn != 0 ==>
              forall i :: 0 <= i < |q1| ==> u[q1[i]].fn != 0
  {
    assert |q1| == |q| + 1;
    assert forall i :: 0 <= i < |q1| ==> q1[i] == (if i < m then q[i] else if i == m then p else q[i - 1]);
    forall a, b | 0 <= a < b < |q1| ensures q1[a] != q1[b] {
      if b == m {
      } else if a == m {
      } else {
        var a' := if a < m then a else a - 1;
        var b' := if b < m then b else b - 1;
        assert a' < b';
      }
    }
    forall i | 0 <= i < |q1|
      ensures u[q1[i]].next == (if i + 1 < |q1| then q1[i + 1] else NONE)
    {
      if i + 1 < m {
        assert q[i] != q[m - 1] && (m == |q| || q[i] != q[m]);
        assert u[q[i]] == t[q[i]];
      } else if i + 1 == m {
      } else if i == m {
      } else if i == m + 1 {
      } else {
        assert q[i - 1] != q[m] && (m == 0 || q[i - 1] != q[m - 1]);
        assert u[q[i - 1]] == t[q[i - 1]];
      }
    }
  }

  lemma RelinkedComplete(t: seq<Timer>, q: seq<nat>, u: seq<Timer>, m: nat, p: nat, rem: int, fn: int)
    requires InRange(t, q) && Complete(t, q)
    requires Relinked(t, q, u, m, p, rem, fn)
    ensures Complete(u, q[..m] + [p] + q[m..])
  {
    var q1 := q[..m] + [p] + q[m..];
    assert q1[m] == p;
    forall s | 0 <= s < |u| && u[s].fn != 0 ensures s in q1 {
      if s != p {
        assert u[s].fn == t[s].fn by {
          if 0 < m && s == q[m - 1] {
          } else if m < |q| && s == q[m] {
          }
        }
        var k :| 0 <= k < |q| && q[k] == s;
        if k < m {
          assert q1[k] == s;
        } else {
          assert q1[k + 1] == s;
        }
      }
    }
  }

  lemma {:induction false} InsertBefore(t: seq<Timer>, q: seq<nat>, u: seq<Timer>, m: nat, p: nat, rem: int, fn: int, i: nat)
    requires InRange(t, q) && p !in q && (forall a, b :: 0 <= a < b < |q| ==> q[a] != q[b])
    requires Relinked(t, q, u, m, p, rem, fn) && i < m
    ensures InRange(u, q[..m] + [p] + q[m..])
    ensures Due(u, q[..m] + [p] + q[m..], i) == Due(t, q, i)
  {
    var q1 := q[..m] + [p] + q[m..];
    assert q1[i] == q[i];
    DueStep(t, q, i);
    DueStep(u, q1, i);
    if i > 0 {
      InsertBefore(t, q, u, m, p, rem, fn, i - 1);
    }
  }

  lemma InsertAt(t: seq<Timer>, q: seq<nat>, u: seq<Timer>, m: nat, p: nat, jif: int, fn: int)
    requires InRange(t, q) && p !in q && (forall a, b :: 0 <= a < b < |q| ==> q[a] != q[b])
    requires m <= |q| && Relinked(t, q, u, m, p, jif - Sum(t, q[..m]), fn)
    ensures InRange(u, q[..m] + [p] + q[m..])
    ensures Due(u, q[..m] + [p] + q[m..], m) == jif
  {
    var q1 := q[..m] + [p] + q[m..];
    assert q1[m] == p;
    DueStep(u, q1, m);
    if m > 0 {
      InsertBefore(t, q, u, m, p, jif - Sum(t, q[..m]), fn, m - 1);
      DueStep(t, q, m - 1);
      assert q[..m - 1 + 1] == q[..m];
    } else {
      assert q[..0] == [];
    }
  }

  lemma {:induction false} InsertAfter(t: seq<Timer>, q: seq<nat>, u: seq<Timer>, m: nat, p: nat, jif: int, fn: int, i: nat)
    requires InRange(t, q) && p !in q && (forall a, b :: 0 <= a < b < |q| ==> q[a] != q[b])
    requires m <= i < |q| && Relinked(t, q, u, m, p, jif - Sum(t, q[..m]), fn)
    ensures InRange(u, q[..m] + [p] + q[m..])
    ensures Due(u, q[..m] + [p] + q[m..], i + 1) == Due(t, q, i)
  {
    if i == m {
      InsertAt(t, q, u, m, p, jif, fn);
      DueStep(t, q, m);
    } else {
      InsertAfter(t, q, u, m, p, jif, fn, i - 1);
    }
    AfterStep(t, q, u, m, p, jif - Sum(t, q[..m]), fn, i);
  }

  /** The due time of entry `i + 1` after the insertion follows from that of entry `i`. */
  lemma AfterStep(t: seq<Timer>, q: seq<nat>, u: seq<Timer>, m: nat, p: nat, rem: int, fn: int, i: nat)
    requires InRange(t, q) && p !in q && (forall a, b :: 0 <= a < b < |q| ==> q[a] != q[b])
    requires m <= i < |q| && Relinked(t, q, u, m, p, rem, fn)
    requires InRange(u, q[..m] + [p] + q[m..])
    requires i == m ==> Due(u, q[..m] + [p] + q[m..], i) == rem + Due(t, q, i) - t[q[i]].jiffies
    requires i > m ==> Due(u, q[..m] + [p] + q[m..], i) == Due(t, q, i - 1)
    ensures Due(u, q[..m] + [p] + q[m..], i + 1) == Due(t, q, i)
  {
    var q1 := q[..m] + [p] + q[m..];
    assert q1[i + 1] == q[i];
    DueStep(u, q1, i + 1);
    DueStep(t, q, i);
    if i > m {
      assert q[i] != q[m] && (m == 0 || q[i] != q[m - 1]);
    }
  }

  /** Relinking at the depth is an insertion in order of expiry. */
  lemma InsertFacts(t: seq<Timer>, q: seq<nat>, u: seq<Timer>, m: nat, p: nat, jif: int, fn: int)
    requires InRange(t, q) && p !in q && (forall a, b :: 0 <= a < b < |q| ==> q[a] != q[b])
    requires Depth(t, q, jif, 0) == m && p < |t|
    requires t[p].fn == 0 && (forall i :: 0 <= i < p ==> t[i].fn != 0)
    requires Relinked(t, q, u, m, p, jif - Sum(t, q[..m]), fn)
    ensures Inserted(t, q, u, q[..m] + [p] + q[m..], p, jif, fn)
  {
    InsertAt(t, q, u, m, p, jif, fn);
    forall i | 0 <= i < m ensures Due(u, q[..m] + [p] + q[m..], i) == Due(t, q, i) {
      InsertBefore(t, q, u, m, p, jif - Sum(t, q[..m]), fn, i);
    }
    forall i | m <= i < |q| ensures Due(u, q[..m] + [p] + q[m..], i + 1) == Due(t, q, i) {
      InsertAfter(t, q, u, m, p, jif, fn, i);
    }
  }

  // ---------------------------------------------------------------------
  // add_timer
  // ---------------------------------------------------------------------

  /**
   * add_timer with the insertion done as intended: the walk keeps the entry
   * before the insertion point and links the new entry after it, and an
   * empty list is not dereferenced. A NULL `fn` does nothing; `jif <= 0`
   * runs `fn` at once (`ranNow`).
   */
  method AddTimer(tl: TimerList, jif: int, fn: int) returns (ranNow: bool, ghost p: int)
    requires tl.Tidy()
    requires fn != 0 && 0 < jif ==> HasFree(tl.table)
    modifies tl
    ensures tl.Tidy()
    ensures ranNow <==> fn != 0 && jif <= 0
    ensures fn == 0 || jif <= 0 ==>
              tl.table == old(tl.table) && tl.head == old(tl.head) && tl.queue == old(tl.queue)
    ensures fn != 0 && 0 < jif ==>
              Inserted(old(tl.table), old(tl.queue), tl.table, tl.queue, p, jif, fn)
    ensures fn != 0 && 0 < jif && Ordered(old(tl.table), old(tl.queue)) ==>
              Ordered(tl.table, tl.queue)
  {
    p := NONE;
    if fn == 0 {
      return false, p;
    }
    if jif <= 0 {
      return true, p;
    }
    ranNow := false;
    ghost var t, h, q := tl.table, tl.head, tl.queue;
    var slot := FirstFree(tl.table);
    p := slot;
    assert p !in q;
    var prev, tmp, rem, m := FindPlace(tl.table, tl.head, q, jif);
    Link(tl, t, h, q, m, slot, prev, tmp, rem, fn);
    RelinkedList(t, h, q, tl.table, m, p, rem, fn);
    InsertFacts(t, q, tl.table, m, p, jif, fn);
    if Ordered(t, q) {
      InsertKeepsOrder(t, q, tl.table, tl.queue, p, jif, fn);
    }
  }

  /**
   * The walk of the corrected add_timer: `tmp` is the first entry that
   * does not expire before `jif`, `prev` the entry before it, and `rem`
   * the ticks left after the entries walked past.
   */
  method FindPlace(t: seq<Timer>, h: int, ghost q: seq<nat>, jif: int)
    returns (prev: int, tmp: int, rem: int, ghost m: nat)
    requires IsList(t, h, q)
    ensures m == Depth(t, q, jif, 0)
    ensures tmp == (if m < |q| then q[m] else NONE)
    ensures prev == (if m == 0 then NONE else q[m - 1])
    ensures rem == jif - Sum(t, q[..m])
  {
    rem := jif;
    prev := NONE;
    tmp := h;
    m := 0;
    assert q[..0] == [];
    while tmp != NONE && t[tmp].jiffies < rem
      invariant m <= |q| && tmp == (if m < |q| then q[m] else NONE)
      invariant prev == (if m == 0 then NONE else q[m - 1])
      invariant rem == jif - Sum(t, q[..m])
      invariant Depth(t, q, jif, m) == Depth(t, q, jif, 0)
      decreases |q| - m
    {
      DueStep(t, q, m);
      assert t[q[m]].next == (if m + 1 < |q| then q[m + 1] else NONE);
      rem := rem - t[tmp].jiffies;
      prev := tmp;
      tmp := t[tmp].next;
      m := m + 1;
    }
    if m < |q| {
      DueStep(t, q, m);
    }
  }

  /** The relinking of the corrected add_timer: `p` goes between `prev` and `tmp`. */
  method Link(tl: TimerList, ghost t: seq<Timer>, ghost h: int, ghost q: seq<nat>, ghost m: nat,
              p: nat, prev: int, tmp: int, rem: int, fn: int)
    requires tl.table == t && tl.head == h && IsList(t, h, q)
    requires m <= |q| && p < |t| && p !in q
    requires tmp == (if m < |q| then q[m] else NONE)
    requires prev == (if m == 0 then NONE else q[m - 1])
    modifies tl
    ensures Relinked(t, q, tl.table, m, p, rem, fn)
    ensures tl.head == (if m == 0 then p else h) && tl.queue == q[..m] + [p] + q[m..]
  {
    var u := tl.table[p := Timer(rem, fn, tmp)];
    if prev == NONE {
      tl.head := p;
    } else {
      u := u[prev := u[prev].(next := p)];
    }
    if tmp != NONE {
      u := u[tmp := u[tmp].(jiffies := u[tmp].jiffies - rem)];
    }
    tl.table := u;
    tl.queue := q[..m] + [p] + q[m..];
  }

  /** The state of the walk in AddTimerAsWritten after `m` steps. */
  ghost predicate Walked(t: seq<Timer>, q: seq<nat>, u: seq<Timer>, p: nat, tmp: int,
                         m: nat, jif: int, fn: int)
    requires InRange(t, q)
  {
    m <= |q| && p < |t| && |u| == |t| && Depth(t, q, jif, m) == Depth(t, q, jif, 0) &&
    tmp == (if m < |q| then q[m] else NONE) &&
    u[p] == Timer(jif - Sum(t, q[..m]), fn, tmp) &&
    (forall i :: 0 <= i < m ==> u[q[i]] == t[q[i]].(next := p)) &&
    forall s :: 0 <= s < |t| && s != p && s !in q[..m] ==> u[s] == t[s]
  }

  /** The body of the walk in `add_timer`: `p` is unlinked from before `x` and relinked after it, its delta less `x`'s. */
  function Passed(u: seq<Timer>, p: nat, x: nat): (u': seq<Timer>)
    requires p < |u| && x < |u|
    ensures |u'| == |u|
  {
    var u1 := u[p := u[p].(next := u[x].next)];
    var u2 := u1[x := u1[x].(next := p)];
    u2[p := u2[p].(jiffies := u2[p].jiffies - u2[x].jiffies)]
  }

  /** One step of the walk in AddTimerAsWritten: `p` is moved past entry `m`. */
  lemma WalkStep(t: seq<Timer>, h: int, q: seq<nat>, u: seq<Timer>, p: nat, m: nat, jif: int, fn: int)
    requires IsList(t, h, q) && p !in q
    requires m < |q| && Walked(t, q, u, p, q[m], m, jif, fn) && u[q[m]].jiffies < u[p].jiffies
    ensures var u' := Passed(u, p, q[m]); Walked(t, q, u', p, u'[p].next, m + 1, jif, fn)
  {
    var x := q[m];
    assert x !in q[..m];
    assert u[x] == t[x];
    DueStep(t, q, m);
    var u3 := Passed(u, p, x);
    assert Depth(t, q, jif, m) == Depth(t, q, jif, m + 1);
    assert u3[x] == t[x].(next := p);
    assert u3[p].next == t[x].next == (if m + 1 < |q| then q[m + 1] else NONE);
    assert u3[p].jiffies == jif - Sum(t, q[..m]) - t[x].jiffies;
    assert u3[p] == Timer(jif - Sum(t, q[..m + 1]), fn, if m + 1 < |q| then q[m + 1] else NONE);
    forall i | 0 <= i < m + 1 ensures u3[q[i]] == t[q[i]].(next := p) {
      if i < m {
        assert q[i] != x && q[i] in q[..m];
      }
    }
    forall s | 0 <= s < |t| && s != p && s !in q[..m + 1] ensures u3[s] == t[s] {
      assert s != x by { assert q[..m + 1][m] == x; }
    }
  }

  /** The list that AddTimerAsWritten leaves after walking `d >= 2` entries. */
  lemma EarlyList(t: seq<Timer>, h: int, q: seq<nat>, u: seq<Timer>, d: nat, p: nat, fn: int)
    requires Listed(t, h, q) && 2 <= d <= |q| && p < |t| && p !in q && fn != 0 && |u| == |t|
    requires u[q[0]] == t[q[0]].(next := p)
    requires u[p].fn == fn && u[p].next == (if d < |q| then q[d] else NONE)
    requires forall i :: d <= i < |q| ==> u[q[i]].next == t[q[i]].next && u[q[i]].fn == t[q[i]].fn
    ensures Listed(u, h, [q[0], p] + q[d..])
  {
    var q1 := [q[0], p] + q[d..];
    assert forall i :: 0 <= i < |q1| ==> q1[i] == (if i == 0 then q[0] else if i == 1 then p else q[i + d - 2]);
    forall i, j | 0 <= i < j < |q1| ensures q1[i] != q1[j] {
      if j >= 2 {
        assert q1[j] == q[j + d - 2] && q[j + d - 2] in q;
      }
    }
    forall i | 0 <= i < |q1|
      ensures u[q1[i]].next == (if i + 1 < |q1| then q1[i + 1] else NONE) && u[q1[i]].fn != 0
    {
      if i >= 2 {
        var k := i + d - 2;
        assert q1[i] == q[k] && d <= k < |q|;
        assert u[q[k]].next == t[q[k]].next == (if k + 1 < |q| then q[k + 1] else NONE);
        assert u[q[k]].fn == t[q[k]].fn != 0;
        if i + 1 < |q1| {
          assert q1[i + 1] == q[k + 1];
        }
      } else if i == 1 {
        assert q1[1] == p;
        if d < |q| {
          assert q1[2] == q[d];
        }
      } else {
        assert q1[0] == q[0] && t[q[0]].fn != 0;
      }
    }
    assert IsList(u, h, q1);
  }

  /** The due times after AddTimerAsWritten has walked `d >= 2` entries. */
  lemma EarlyFacts(t: seq<Timer>, q: seq<nat>, u: seq<Timer>, d: nat, p: nat, jif: int)
    requires InRange(t, q) && 2 <= d <= |q| && p < |t| && |u| == |t|
    requires forall i, j :: 0 <= i < j < |q| ==> q[i] != q[j]
    requires u[q[0]].jiffies == t[q[0]].jiffies
    requires u[p].jiffies == jif - Sum(t, q[..d])
    requires d < |q| ==> u[q[d]].jiffies == t[q[d]].jiffies - u[p].jiffies
    requires forall i :: d < i < |q| ==> u[q[i]].jiffies == t[q[i]].jiffies
    ensures InRange(u, [q[0], p] + q[d..])
    ensures var early := Due(t, q, d - 1) - Due(t, q, 0);
            Due(u, [q[0], p] + q[d..], 1) == jif - early &&
            forall i :: d <= i < |q| ==> Due(u, [q[0], p] + q[d..], i - d + 2) == Due(t, q, i) - early
  {
    var q1 := [q[0], p] + q[d..];
    DueStep(t, q, 0);
    DueStep(t, q, d - 1);
    assert q[..d - 1 + 1] == q[..d];
    DueStep(u, q1, 0);
    DueStep(u, q1, 1);
    forall i | d <= i < |q|
      ensures Due(u, q1, i - d + 2) == Due(t, q, i) - (Due(t, q, d - 1) - Due(t, q, 0))
    {
      EarlyAfter(t, q, u, d, p, jif, i);
    }
  }

  lemma {:induction false} EarlyAfter(t: seq<Timer>, q: seq<nat>, u: seq<Timer>, d: nat, p: nat, jif: int, i: nat)
    requires InRange(t, q) && 2 <= d <= i < |q| && p < |t| && |u| == |t|
    requires forall i, j :: 0 <= i < j < |q| ==> q[i] != q[j]
    requires u[q[0]].jiffies == t[q[0]].jiffies
    requires u[p].jiffies == jif - Sum(t, q[..d])
    requires u[q[d]].jiffies == t[q[d]].jiffies - u[p].jiffies
    requires forall i :: d < i < |q| ==> u[q[i]].jiffies == t[q[i]].jiffies
    ensures InRange(u, [q[0], p] + q[d..])
    ensures Due(u, [q[0], p] + q[d..], i - d + 2) == Due(t, q, i) - (Due(t, q, d - 1) - Due(t, q, 0))
  {
    var q1 := [q[0], p] + q[d..];
    assert q1[i - d + 2] == q[i];
    DueStep(u, q1, i - d + 2);
    DueStep(t, q, i);
    if i == d {
      DueStep(t, q, 0);
      DueStep(t, q, d - 1);
      assert q[..d - 1 + 1] == q[..d];
      DueStep(u, q1, 0);
      DueStep(u, q1, 1);
    } else {
      EarlyAfter(t, q, u, d, p, jif, i - 1);
    }
  }

  /**
   * The outcome of add_timer as written, for a timer for `fn` due in `jif`
   * ticks taking free slot `p` (`zeroWord` is the long at address 0):
   *  - An empty list links the new entry only when `zeroWord >= jif`;
   *    otherwise the slot is taken but the timer is never on the list.
   *  - When the new entry belongs at position 0 or 1 it is linked there.
   *  - When it belongs at position `d >= 2`, it ends up right after the head,
   *    the entries at positions 1 .. d-1 drop off the list with their slots
   *    still taken, and the new entry and every later one expire
   *    `Due(q, d-1) - Due(q, 0)` ticks early.
   */
  ghost predicate AddedAsWritten(t: seq<Timer>, q: seq<nat>, t1: seq<Timer>, q1: seq<nat>,
                                 p: int, jif: int, fn: int, zeroWord: int)
    requires InRange(t, q) && |t1| == |t| && InRange(t1, q1)
  {
    var d := Depth(t, q, jif, 0);
    0 <= p < |t| && t[p].fn == 0 && t1[p].fn == fn &&
    (forall i :: 0 <= i < p ==> t[i].fn != 0) &&
    (q == [] ==> q1 == (if jif <= zeroWord then [p] else []) && t1[p].jiffies == jif) &&
    (q != [] && d <= 1 ==> Inserted(t, q, t1, q1, p, jif, fn)) &&
    (d >= 2 ==> Early(t, q, t1, q1, p, d, jif))
  }

  /**
   * The outcome of add_timer as written when the new entry belongs at
   * position `d >= 2` (see AddedAsWritten).
   */
  ghost predicate Early(t: seq<Timer>, q: seq<nat>, t1: seq<Timer>, q1: seq<nat>, p: int, d: nat, jif: int)
    requires InRange(t, q) && |t1| == |t| && InRange(t1, q1) && 1 <= d <= |q|
  {
    var early := Due(t, q, d - 1) - Due(t, q, 0);
    q1 == [q[0], p] + q[d..] && |q1| == |q| - d + 2 &&
    Due(t1, q1, 1) == jif - early &&
    (forall i :: d <= i < |q| ==> Due(t1, q1, i - d + 2) == Due(t, q, i) - early) &&
    forall i :: 1 <= i < d ==> q[i] !in q1 && t1[q[i]].fn == t[q[i]].fn != 0
  }

  /** add_timer as written; AddedAsWritten describes the outcome. */
  method AddTimerAsWritten(tl: TimerList, jif: int, fn: int, zeroWord: int)
    returns (ranNow: bool, ghost p: int)
    requires tl.Valid()
    requires fn != 0 && 0 < jif ==> HasFree(tl.table)
    modifies tl
    ensures tl.Valid()
    ensures ranNow <==> fn != 0 && jif <= 0
    ensures fn == 0 || jif <= 0 ==>
              tl.table == old(tl.table) && tl.head == old(tl.head) && tl.queue == old(tl.queue)
    ensures fn != 0 && 0 < jif ==>
              AddedAsWritten(old(tl.table), old(tl.queue), tl.table, tl.queue, p, jif, fn, zeroWord)
  {
    p := NONE;
    if fn == 0 {
      return false, p;
    }
    if jif <= 0 {
      return true, p;
    }
    ranNow := false;
    p := ArmAsWritten(tl, jif, fn, zeroWord);
  }

  /** The list part of add_timer as written, for a timer that does not run at once. */
  method ArmAsWritten(tl: TimerList, jif: int, fn: int, zeroWord: int) returns (ghost p: int)
    requires tl.Valid() && fn != 0 && 0 < jif && HasFree(tl.table)
    modifies tl
    ensures tl.Valid()
    ensures AddedAsWritten(old(tl.table), old(tl.queue), tl.table, tl.queue, p, jif, fn, zeroWord)
  {
    var u, h1;
    ghost var q1;
    u, h1, p, q1 := ArmTable(tl.table, tl.head, tl.queue, jif, fn, zeroWord);
    tl.table, tl.head, tl.queue := u, h1, q1;
  }

  /** The table and the list head that add_timer as written leaves. */
  method ArmTable(tab: seq<Timer>, head: int, ghost q: seq<nat>, jif: int, fn: int, zeroWord: int)
    returns (u: seq<Timer>, h1: int, ghost p: nat, ghost q1: seq<nat>)
    requires Listed(tab, head, q) && fn != 0 && 0 < jif && HasFree(tab)
    ensures Listed(u, h1, q1) && |u| == |tab| && InRange(u, q1)
    ensures AddedAsWritten(tab, q, u, q1, p, jif, fn, zeroWord)
  {
    var slot := FirstFree(tab);
    p := slot;
    assert p !in q;
    u := tab[slot := Timer(jif, fn, head)];
    var hj := if head == NONE then zeroWord else tab[head].jiffies;
    var tmp;
    ghost var m;
    u, tmp, m := Walk(u, slot, tab, head, q, jif, fn);
    ghost var w := u;
    u := if tmp != NONE && u[tmp].jiffies >= u[slot].jiffies
         then u[tmp := u[tmp].(jiffies := u[tmp].jiffies - u[slot].jiffies)] else u;
    q1 := if m <= 1 then (if q == [] && hj < jif then [] else q[..m] + [slot] + q[m..])
          else [q[0], slot] + q[m..];
    h1 := if hj >= jif then slot else head;
    AsWrittenOutcome(tab, head, q, w, u, q1, tmp, m, slot, jif, fn, hj, zeroWord);
  }

  /** The walk of add_timer as written, moving `p` past each entry that expires earlier. */
  method Walk(u0: seq<Timer>, p: nat, ghost t: seq<Timer>, ghost h: int, ghost q: seq<nat>, jif: int, fn: int)
    returns (u: seq<Timer>, tmp: int, ghost m: nat)
    requires IsList(t, h, q) && p !in q
    requires p < |t| && u0 == t[p := Timer(jif, fn, h)]
    ensures Walked(t, q, u, p, tmp, m, jif, fn) && m == Depth(t, q, jif, 0)
    ensures tmp != NONE ==> u[tmp].jiffies >= u[p].jiffies
  {
    u := u0;
    tmp := u[p].next;
    m := 0;
    assert q[..0] == [];
    while tmp != NONE && u[tmp].jiffies < u[p].jiffies
      invariant Walked(t, q, u, p, tmp, m, jif, fn)
      decreases |q| - m
    {
      WalkStep(t, h, q, u, p, m, jif, fn);
      u := Passed(u, p, tmp);
      m := m + 1;
      tmp := u[p].next;
    }
    if m < |q| {
      DueStep(t, q, m);
      assert q[m] !in q[..m];
    }
  }

  /** The outcome of AddTimerAsWritten, from the state the walk left. */
  lemma AsWrittenOutcome(t: seq<Timer>, h: int, q: seq<nat>, w: seq<Timer>, u: seq<Timer>, q1: seq<nat>,
                         tmp: int, m: nat, p: nat, jif: int, fn: int, hj: int, zeroWord: int)
    requires Listed(t, h, q) && p !in q && fn != 0 && 0 < jif && p < |t|
    requires t[p].fn == 0 && (forall i :: 0 <= i < p ==> t[i].fn != 0)
    requires Walked(t, q, w, p, tmp, m, jif, fn) && m == Depth(t, q, jif, 0)
    requires tmp != NONE ==> w[tmp].jiffies >= w[p].jiffies
    requires u == (if tmp != NONE && w[tmp].jiffies >= w[p].jiffies
                   then w[tmp := w[tmp].(jiffies := w[tmp].jiffies - w[p].jiffies)] else w)
    requires hj == (if h == NONE then zeroWord else t[h].jiffies)
    requires q1 == (if m <= 1 then (if q == [] && hj < jif then [] else q[..m] + [p] + q[m..])
                    else [q[0], p] + q[m..])
    ensures Listed(u, if hj >= jif then p else h, q1)
    ensures |u| == |t| && InRange(u, q1) && AddedAsWritten(t, q, u, q1, p, jif, fn, zeroWord)
  {
    if m <= 1 {
      NearOutcome(t, h, q, w, u, q1, m, p, jif, fn, hj, zeroWord);
    } else {
      DueStep(t, q, 0);
      EarlyState(t, h, q, w, u, m, p, jif, fn);
      EarlyOutcome(t, h, q, u, q1, m, p, jif, fn);
    }
  }

  lemma NearOutcome(t: seq<Timer>, h: int, q: seq<nat>, w: seq<Timer>, u: seq<Timer>, q1: seq<nat>,
                    m: nat, p: nat, jif: int, fn: int, hj: int, zeroWord: int)
    requires Listed(t, h, q) && p !in q && fn != 0 && 0 < jif && p < |t| && m <= 1
    requires t[p].fn == 0 && (forall i :: 0 <= i < p ==> t[i].fn != 0)
    requires Walked(t, q, w, p, if m < |q| then q[m] else NONE, m, jif, fn) && m == Depth(t, q, jif, 0)
    requires u == (if m < |q| then w[q[m] := w[q[m]].(jiffies := w[q[m]].jiffies - w[p].jiffies)] else w)
    requires hj == (if q == [] then zeroWord else t[q[0]].jiffies)
    requires q1 == (if q == [] && hj < jif then [] else q[..m] + [p] + q[m..])
    ensures Listed(u, if hj >= jif then p else h, q1)
    ensures |u| == |t| && InRange(u, q1) && AddedAsWritten(t, q, u, q1, p, jif, fn, zeroWord)
  {
    assert q[..0] == [];
    if q != [] {
      DueStep(t, q, 0);
    }
    if m < |q| {
      DueStep(t, q, m);
    }
    AsWrittenNear(t, h, q, w, u, m, p, jif, fn, hj);
    if q == [] {
      assert q1 == (if jif <= zeroWord then [p] else []);
    }
  }

  lemma EarlyOutcome(t: seq<Timer>, h: int, q: seq<nat>, u: seq<Timer>, q1: seq<nat>,
                     m: nat, p: nat, jif: int, fn: int)
    requires Listed(t, h, q) && p !in q && fn != 0 && p < |t|
    requires t[p].fn == 0 && (forall i :: 0 <= i < p ==> t[i].fn != 0)
    requires m == Depth(t, q, jif, 0) && Stepped(t, q, u, m, p, jif, fn)
    requires q1 == [q[0], p] + q[m..]
    ensures Listed(u, h, q1)
    ensures |u| == |t| && InRange(u, q1) && Early(t, q, u, q1, p, m, jif)
  {
    EarlyList(t, h, q, u, m, p, fn);
    EarlyFacts(t, q, u, m, p, jif);
    forall i | 1 <= i < m ensures q[i] !in q1 {
      assert q1[0] == q[0] && q1[1] == p;
      assert forall k :: 2 <= k < |q1| ==> q1[k] == q[k + m - 2];
    }
  }

  /**
   * The table after the walk of add_timer as written has passed `m >= 2`
   * entries and the entry after the new one has been charged its delta.
   */
  ghost predicate Stepped(t: seq<Timer>, q: seq<nat>, u: seq<Timer>, m: nat, p: nat, jif: int, fn: int)
    requires InRange(t, q)
  {
    |u| == |t| && 2 <= m <= |q| && p < |t| &&
    u[q[0]] == t[q[0]].(next := p) &&
    u[p].fn == fn && u[p].next == (if m < |q| then q[m] else NONE) &&
    u[p].jiffies == jif - Sum(t, q[..m]) &&
    (m < |q| ==> u[q[m]].jiffies == t[q[m]].jiffies - u[p].jiffies) &&
    (forall i :: m <= i < |q| ==> u[q[i]].next == t[q[i]].next && u[q[i]].fn == t[q[i]].fn) &&
    (forall i :: m < i < |q| ==> u[q[i]].jiffies == t[q[i]].jiffies) &&
    forall i :: 1 <= i < m ==> u[q[i]].fn == t[q[i]].fn != 0
  }

  /** The slots of the table after the walk and the final subtraction, entry by entry. */
  lemma EarlyState(t: seq<Timer>, h: int, q: seq<nat>, w: seq<Timer>, u: seq<Timer>,
                   m: nat, p: nat, jif: int, fn: int)
    requires Listed(t, h, q) && p !in q && 2 <= m
    requires Walked(t, q, w, p, if m < |q| then q[m] else NONE, m, jif, fn)
    requires u == (if m < |q| then w[q[m] := w[q[m]].(jiffies := w[q[m]].jiffies - w[p].jiffies)] else w)
    ensures Stepped(t, q, u, m, p, jif, fn)
  {
    assert q[0] in q[..m];
    forall i | m <= i < |q| ensures u[q[i]].next == t[q[i]].next && u[q[i]].fn == t[q[i]].fn {
      assert q[i] !in q[..m];
      assert w[q[i]] == t[q[i]];
    }
    forall i | m < i < |q| ensures u[q[i]].jiffies == t[q[i]].jiffies {
      assert q[i] !in q[..m] && q[i] != q[m];
      assert w[q[i]] == t[q[i]];
    }
    if m < |q| {
      assert q[m] !in q[..m];
    }
    forall i | 1 <= i < m ensures u[q[i]].fn == t[q[i]].fn != 0 {
      assert q[i] in q[..m];
      assert m < |q| ==> q[i] != q[m];
    }
  }

  /** AddTimerAsWritten when the walk stopped within one step of the head. */
  lemma AsWrittenNear(t: seq<Timer>, h: int, q: seq<nat>, w: seq<Timer>, u: seq<Timer>,
                      m: nat, p: nat, jif: int, fn: int, hj: int)
    requires Listed(t, h, q) && p !in q && fn != 0 && m <= 1 && 0 < jif && p < |t|
    requires t[p].fn == 0 && (forall i :: 0 <= i < p ==> t[i].fn != 0)
    requires Walked(t, q, w, p, if m < |q| then q[m] else NONE, m, jif, fn)
    requires m < |q| ==> jif - Sum(t, q[..m]) <= t[q[m]].jiffies
    requires u == (if m < |q| then w[q[m] := w[q[m]].(jiffies := w[q[m]].jiffies - w[p].jiffies)] else w)
    requires q != [] ==> (hj < jif <==> 0 < m)
    ensures var h1 := if hj >= jif then p else h;
            var q1 := if q == [] && hj < jif then [] else q[..m] + [p] + q[m..];
            Listed(u, h1, q1) &&
            (q != [] ==> Depth(t, q, jif, 0) == m && Inserted(t, q, u, q1, p, jif, fn))
  {
    assert q[..0] == [];
    if q == [] && hj < jif {
    } else {
      assert Relinked(t, q, u, m, p, jif - Sum(t, q[..m]), fn);
      RelinkedList(t, h, q, u, m, p, jif - Sum(t, q[..m]), fn);
      if q != [] {
        if m < |q| {
          DueStep(t, q, m);
        }
        InsertFacts(t, q, u, m, p, jif, fn);
      }
    }
  }

  /**
   * Two armed timers due in 1 and 2 ticks and a new one due in 5: as
   * written, the new timer fires after 4 ticks and the second timer is
   * no longer on the list, though its slot stays taken.
   */
  lemma MislinkExample(t1: seq<Timer>, q1: seq<nat>)
    requires |t1| == 3 && InRange(t1, q1)
    requires AddedAsWritten([Timer(1, 7, 1), Timer(1, 8, NONE), Timer(0, 0, NONE)], [0, 1],
                            t1, q1, 2, 5, 9, 0)
    ensures q1 == [0, 2] && Due(t1, q1, 1) == 4 && t1[1].fn == 8
  {
    var t := [Timer(1, 7, 1), Timer(1, 8, NONE), Timer(0, 0, NONE)];
    var q := [0, 1];
    DueStep(t, q, 0);
    DueStep(t, q, 1);
    assert Depth(t, q, 5, 0) == 2;
  }

  /**
   * An empty list and a word at address 0 below `jif`: as written, the
   * new timer takes its slot but is never linked, so it never fires.
   */
  lemma NullHeadExample(t1: seq<Timer>, q1: seq<nat>)
    requires |t1| == 1 && InRange(t1, q1)
    requires AddedAsWritten([Timer(0, 0, NONE)], [], t1, q1, 0, 5, 9, 0)
    ensures q1 == [] && t1[0].fn == 9
  {
  }

  // ---------------------------------------------------------------------
  // The list part of do_timer
  // ---------------------------------------------------------------------

  /**
   * do_timer's walk of the list: the head is charged one tick, then every
   * entry at the head whose delta has run out is taken off the list and
   * its function is returned in `fired`, in list order.
   */
  method Expire(tl: TimerList) returns (fired: seq<int>)
    requires tl.Valid()
    modifies tl
    ensures tl.Valid()
    ensures old(tl.Tidy()) ==> tl.Tidy()
    ensures var t, q := old(tl.table), old(tl.queue);
            var f := Expiring(Tick(t, q), q, 0);
            tl.queue == q[f..] && Expired(t, q, f, tl.table) && fired == Fns(t, q[..f])
  {
    ghost var t, q := tl.table, tl.queue;
    var u := tl.table;
    var h := tl.head;
    assert IsList(t, h, q);
    if h != NONE {
      u := u[h := u[h].(jiffies := u[h].jiffies - 1)];
    }
    ghost var m;
    u, h, fired, m := Fire(u, h, t, q);
    ExpireOutcome(t, tl.head, q, u, h, m);
    tl.table, tl.head, tl.queue := u, h, q[m..];
  }

  /** The loop of do_timer: fire and unlink the head while its delta has run out. */
  method Fire(t1: seq<Timer>, h0: int, ghost t: seq<Timer>, ghost q: seq<nat>)
    returns (u: seq<Timer>, h: int, fired: seq<int>, ghost m: nat)
    requires IsList(t, h0, q) && t1 == Tick(t, q)
    ensures m == Expiring(t1, q, 0) && h == (if m < |q| then q[m] else NONE)
    ensures Expired(t, q, m, u) && fired == Fns(t, q[..m])
  {
    fired := [];
    u := t1;
    h := h0;
    m := 0;
    assert q[..0] == [];
    while h != NONE && u[h].jiffies <= 0
      invariant m <= |q| && h == (if m < |q| then q[m] else NONE)
      invariant Expiring(t1, q, m) == Expiring(t1, q, 0)
      invariant Expired(t, q, m, u)
      invariant fired == Fns(t, q[..m])
      decreases |q| - m
    {
      FireStep(t, h0, q, u, m);
      var fn := u[h].fn;
      u := u[h := u[h].(fn := 0)];
      h := u[h].next;
      fired := fired + [fn];
      m := m + 1;
    }
    if m < |q| {
      assert q[m] !in q[..m];
    }
  }

  /** Firing entry `m` of the list: it is unchanged so far, and it leads on to entry `m + 1`. */
  lemma FireStep(t: seq<Timer>, h0: int, q: seq<nat>, u: seq<Timer>, m: nat)
    requires IsList(t, h0, q) && m < |q| && Expired(t, q, m, u)
    ensures u[q[m]] == Tick(t, q)[q[m]]
    ensures u[q[m]].next == (if m + 1 < |q| then q[m + 1] else NONE)
    ensures Expired(t, q, m + 1, u[q[m] := u[q[m]].(fn := 0)])
    ensures Fns(t, q[..m + 1]) == Fns(t, q[..m]) + [u[q[m]].fn]
  {
    var x := q[m];
    assert x !in q[..m];
    NextOf(t, h0, q, m);
    assert q[..m + 1] == q[..m] + [x];
    assert q[..m + 1][..m] == q[..m];
    var u1 := u[x := u[x].(fn := 0)];
    forall i | 0 <= i < |t| ensures u1[i] == (if i in q[..m + 1] then Tick(t, q)[i].(fn := 0) else Tick(t, q)[i]) {
      if i != x {
        assert (i in q[..m + 1]) == (i in q[..m]);
      }
    }
  }

  /** The list and the table that do_timer leaves once `m` entries have fired. */
  lemma ExpireOutcome(t: seq<Timer>, h0: int, q: seq<nat>, u: seq<Timer>, h: int, m: nat)
    requires Listed(t, h0, q) && m <= |q| && h == (if m < |q| then q[m] else NONE)
    requires Expired(t, q, m, u)
    ensures Listed(u, h, q[m..])
    ensures Complete(t, q) ==> Complete(u, q[m..])
  {
    ExpireList(t, h0, q, u, h, m);
    if Complete(t, q) {
      ExpireComplete(t, q, u, m);
    }
  }

  /** The entries that did not fire still form the list, from the first of them. */
  lemma ExpireList(t: seq<Timer>, h0: int, q: seq<nat>, u: seq<Timer>, h: int, m: nat)
    requires Listed(t, h0, q) && m <= |q| && h == (if m < |q| then q[m] else NONE)
    requires Expired(t, q, m, u)
    ensures Listed(u, h, q[m..])
  {
    var q1 := q[m..];
    assert IsList(t, h0, q);
    assert forall i :: 0 <= i < |q1| ==> q1[i] == q[i + m];
    forall i | 0 <= i < |q1| ensures u[q1[i]] == Tick(t, q)[q1[i]] {
      assert q[i + m] !in q[..m];
    }
    forall i | 0 <= i < |q1| ensures u[q1[i]].next == (if i + 1 < |q1| then q1[i + 1] else NONE) {
      var k := i + m;
      assert q1[i] == q[k];
      assert Tick(t, q)[q[k]].next == t[q[k]].next;
      NextOf(t, h0, q, k);
      if i + 1 < |q1| {
        assert q1[i + 1] == q[k + 1];
      }
    }
    forall i | 0 <= i < |q1| ensures u[q1[i]].fn != 0 {
      assert Tick(t, q)[q1[i]].fn == t[q[i + m]].fn;
    }
    assert |u| == TIME_REQUESTS;
    assert InRange(u, q1);
    assert forall i, j :: 0 <= i < j < |q1| ==> q1[i] != q1[j];
    assert h == (if q1 == [] then NONE else q1[0]);
    assert IsList(u, h, q1);
  }

  /** The link out of entry `k` of a list. */
  lemma NextOf(t: seq<Timer>, h: int, q: seq<nat>, k: nat)
    requires IsList(t, h, q) && k < |q|
    ensures t[q[k]].next == (if k + 1 < |q| then q[k + 1] else NONE)
  {
  }

  /** No armed timer is lost when the expired ones are taken off. */
  lemma ExpireComplete(t: seq<Timer>, q: seq<nat>, u: seq<Timer>, m: nat)
    requires InRange(t, q) && m <= |q| && Expired(t, q, m, u) && Complete(t, q)
    ensures Complete(u, q[m..])
  {
    var q1 := q[m..];
    forall s | 0 <= s < |u| && u[s].fn != 0 ensures s in q1 {
      var k :| 0 <= k < |q| && q[k] == s;
      assert q[k] !in q[..m] ==> k >= m;
      assert q1[k - m] == s;
    }
  }

  /**
   * On an ordered list, the entries that expire are exactly those due on
   * this tick, and every other entry comes one tick closer and stays in order.
   */
  lemma ExpireByDue(t: seq<Timer>, q: seq<nat>, u: seq<Timer>, f: nat)
    requires InRange(t, q) && Ordered(t, q)
    requires forall a, b :: 0 <= a < b < |q| ==> q[a] != q[b]
    requires f == Expiring(Tick(t, q), q, 0) && Expired(t, q, f, u)
    ensures InRange(u, q[f..])
    ensures forall i :: 0 <= i < f ==> Due(t, q, i) == 1
    ensures forall i :: f <= i < |q| ==> 2 <= Due(t, q, i)
    ensures forall i :: f <= i < |q| ==> Due(u, q[f..], i - f) == Due(t, q, i) - 1
    ensures Ordered(u, q[f..])
  {
    ExpiringBounds(Tick(t, q), q, 0);
    DueOnTick(t, q, f);
    DueLater(t, q, f);
    SurvivorsDue(t, q, u, f);
    SurvivorsOrdered(t, q, u, f);
  }

  /** Every entry whose delta runs out on this tick was due on it. */
  lemma DueOnTick(t: seq<Timer>, q: seq<nat>, f: nat)
    requires InRange(t, q) && Ordered(t, q) && f <= |q|
    requires forall a, b :: 0 <= a < b < |q| ==> q[a] != q[b]
    requires forall i :: 0 <= i < f ==> Tick(t, q)[q[i]].jiffies <= 0
    ensures forall i :: 0 <= i < f ==> Due(t, q, i) == 1
  {
    forall i | 0 <= i < f ensures Due(t, q, i) == 1 {
      ExpiredDue(t, q, i);
    }
  }

  /** Every entry past the expiring ones is due on a later tick. */
  lemma DueLater(t: seq<Timer>, q: seq<nat>, f: nat)
    requires InRange(t, q) && Ordered(t, q) && f <= |q|
    requires forall a, b :: 0 <= a < b < |q| ==> q[a] != q[b]
    requires forall i :: 0 <= i < f ==> Tick(t, q)[q[i]].jiffies <= 0
    requires f < |q| ==> Tick(t, q)[q[f]].jiffies > 0
    ensures forall i :: f <= i < |q| ==> 2 <= Due(t, q, i)
  {
    if f < |q| {
      DueStep(t, q, f);
      if f > 0 {
        ExpiredDue(t, q, f - 1);
        assert q[f] != q[0];
      }
      assert 2 <= Due(t, q, f);
    }
    forall i | f <= i < |q| ensures 2 <= Due(t, q, i) {
      DueMono(t, q, f, i);
    }
  }

  /** Every entry that stays comes one tick closer. */
  lemma SurvivorsDue(t: seq<Timer>, q: seq<nat>, u: seq<Timer>, f: nat)
    requires InRange(t, q) && f <= |q|
    requires forall a, b :: 0 <= a < b < |q| ==> q[a] != q[b]
    requires Expired(t, q, f, u)
    requires forall k :: 0 <= k < f ==> Due(t, q, k) == 1
    ensures InRange(u, q[f..])
    ensures forall i :: f <= i < |q| ==> Due(u, q[f..], i - f) == Due(t, q, i) - 1
  {
    assert forall i :: 0 <= i < |q[f..]| ==> q[f..][i] == q[f + i];
    forall i | f <= i < |q| ensures Due(u, q[f..], i - f) == Due(t, q, i) - 1 {
      SurvivorDue(t, q, u, f, i);
    }
  }

  /** The entries that stay are still in order of expiry. */
  lemma SurvivorsOrdered(t: seq<Timer>, q: seq<nat>, u: seq<Timer>, f: nat)
    requires InRange(t, q) && Ordered(t, q) && f <= |q|
    requires forall a, b :: 0 <= a < b < |q| ==> q[a] != q[b]
    requires Expired(t, q, f, u)
    requires f < |q| ==> Tick(t, q)[q[f]].jiffies > 0
    ensures InRange(u, q[f..]) && Ordered(u, q[f..])
  {
    forall i | 0 <= i < |q[f..]| ensures (if i == 0 then 1 else 0) <= u[q[f..][i]].jiffies {
      assert q[f..][i] == q[f + i];
      assert q[f + i] !in q[..f];
      if f + i != 0 {
        assert q[f + i] != q[0];
      }
    }
  }

  lemma ExpiringBounds(t: seq<Timer>, q: seq<nat>, m: nat)
    requires InRange(t, q) && m <= |q|
    ensures var f := Expiring(t, q, m);
            (forall i :: m <= i < f ==> t[q[i]].jiffies <= 0) && (f < |q| ==> t[q[f]].jiffies > 0)
    decreases |q| - m
  {
    if m < |q| && t[q[m]].jiffies <= 0 {
      ExpiringBounds(t, q, m + 1);
    }
  }

  lemma {:induction false} ExpiredDue(t: seq<Timer>, q: seq<nat>, i: nat)
    requires InRange(t, q) && Ordered(t, q) && i < |q|
    requires forall a, b :: 0 <= a < b < |q| ==> q[a] != q[b]
    requires forall k :: 0 <= k <= i ==> Tick(t, q)[q[k]].jiffies <= 0
    ensures Due(t, q, i) == 1
  {
    DueStep(t, q, i);
    if i > 0 {
      ExpiredDue(t, q, i - 1);
      assert q[i] != q[0];
    }
  }

  lemma {:induction false} SurvivorDue(t: seq<Timer>, q: seq<nat>, u: seq<Timer>, f: nat, i: nat)
    requires InRange(t, q) && f <= i < |q|
    requires forall a, b :: 0 <= a < b < |q| ==> q[a] != q[b]
    requires f <= |q| && Expired(t, q, f, u)
    requires forall k :: 0 <= k < f ==> Due(t, q, k) == 1
    ensures InRange(u, q[f..]) && Due(u, q[f..], i - f) == Due(t, q, i) - 1
  {
    assert q[f..][i - f] == q[i];
    assert q[i] !in q[..f];
    DueStep(u, q[f..], i - f);
    DueStep(t, q, i);
    if i > f {
      SurvivorDue(t, q, u, f, i - 1);
      assert q[i] != q[0];
    } else if f > 0 {
      assert q[i] != q[0];
    }
  }
}
