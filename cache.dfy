/*
 * The buffer cache of fs/buffer.c.
 *
 * The buffer heads (`start_buffer[0 .. NR_BUFFERS)`) are the sequence
 * `heads`; a pointer to a head is its index, and NULL is -1. Every head is
 * on the circular doubly-linked free list through `prevFree`/`nextFree`
 * (`b_prev_free`/`b_next_free`); the ghost sequence `order` lists that
 * ring starting at `freeList`. Heads with a device are also on the hash
 * chain of `(dev ^ block) % 307`; a chain is kept as the sequence of the
 * heads on it, head first.
 *
 * The block device behind `ll_rw_block` is the map `disk` from
 * (device, block) to the 1024 bytes stored there; a block that is not in
 * the map cannot be read. A READ (or READA) of a readable block fills the
 * buffer and sets `b_uptodate`; a WRITE stores the buffer and clears
 * `b_dirt`. Every transfer completes before the call returns, so no
 * caller ever waits on a locked buffer.
 */
module Cache {
  import opened Layout

  datatype BufferHead = BufferHead(
    dev: u16,              // b_dev, 0 = no device
    blocknr: int,          // b_blocknr
    uptodate: bool,        // b_uptodate
    dirt: bool,            // b_dirt
    count: nat,            // b_count
    lock: bool,            // b_lock
    prevFree: int,         // b_prev_free
    nextFree: int,         // b_next_free
    data: seq<byte>)       // *b_data

  /** `BADNESS(bh)`: `(b_dirt << 1) + b_lock`. */
  function Badness(b: BufferHead): (r: nat)
    ensures r <= 3 && (r == 0 <==> !b.dirt && !b.lock)
  {
    (if b.dirt then 2 else 0) + (if b.lock then 1 else 0)
  }

  /** `(unsigned) x` for a C `int`. */
  function ToU32(x: int): (r: u32)
  {
    x % 0x1_0000_0000
  }

  /** Bitwise exclusive or of two naturals. */
  function Xor(a: nat, b: nat): (r: nat)
    decreases a + b
  {
    if a == 0 && b == 0 then 0
    else (if a % 2 != b % 2 then 1 else 0) + 2 * Xor(a / 2, b / 2)
  }

  /** `_hashfn(dev, block)`: `((unsigned)(dev ^ block)) % NR_HASH`. */
  function HashFn(dev: u16, block: int): (h: nat)
    ensures h < NR_HASH
  {
    Xor(dev, ToU32(block)) % NR_HASH
  }

  /** The buffer is attached to block `block` of device `dev`. */
  predicate Holds(b: BufferHead, dev: int, block: int)
  {
    b.dev != 0 && b.dev == dev && b.blocknr == block
  }

  /** Some buffer of `s` is attached to `(dev, block)`. */
  ghost predicate Cached(s: seq<BufferHead>, dev: int, block: int)
  {
    exists y :: 0 <= y < |s| && Holds(s[y], dev, block)
  }

  /** Two heads that differ at most in their free-list links. */
  predicate SameButLinks(a: BufferHead, b: BufferHead)
  {
    a.(prevFree := 0, nextFree := 0) == b.(prevFree := 0, nextFree := 0)
  }

  /** The sequence `o` without its element at position `p`. */
  function Without(o: seq<nat>, p: nat): (r: seq<nat>)
    requires p < |o|
    ensures |r| == |o| - 1
    ensures forall k :: 0 <= k < p ==> r[k] == o[k]
    ensures forall k :: p <= k < |r| ==> r[k] == o[k + 1]
  {
    o[..p] + o[p + 1..]
  }

  /** Chain `c` with `x` unlinked from it. */
  function Unchain(c: seq<nat>, x: nat): (r: seq<nat>)
    ensures forall y :: y in r <==> y in c && y != x
  {
    if c == [] then [] else (if c[0] == x then [] else [c[0]]) + Unchain(c[1..], x)
  }

  predicate Distinct(o: seq<nat>)
  {
    forall k, m :: 0 <= k < m < |o| ==> Apart(o, k, m)
  }

  /** Positions `k` and `m` of `o` hold different elements. */
  predicate Apart(o: seq<nat>, k: nat, m: nat)
    requires k < |o| && m < |o|
  {
    o[k] != o[m]
  }

  lemma DistinctAt(o: seq<nat>, k: nat, m: nat)
    requires Distinct(o) && k < |o| && m < |o| && k != m
    ensures o[k] != o[m]
  {
    if k < m {
      assert Apart(o, k, m);
    } else {
      assert Apart(o, m, k);
    }
  }

  /** Dropping one position keeps the elements distinct, and drops that element. */
  lemma WithoutDistinct(o: seq<nat>, p: nat)
    requires Distinct(o) && p < |o|
    ensures Distinct(Without(o, p)) && o[p] !in Without(o, p)
  {
    var w := Without(o, p);
    forall k, m | 0 <= k < m < |w| ensures Apart(w, k, m) {
      var k' := if k < p then k else k + 1;
      var m' := if m < p then m else m + 1;
      DistinctAt(o, k', m');
    }
    forall k | 0 <= k < |w| ensures w[k] != o[p] {
      DistinctAt(o, if k < p then k else k + 1, p);
    }
  }

  /** Appending an element not yet present keeps the elements distinct. */
  lemma AppendDistinct(o: seq<nat>, x: nat)
    requires Distinct(o) && x !in o
    ensures Distinct(o + [x])
  {
    var w := o + [x];
    forall k, m | 0 <= k < m < |w| ensures Apart(w, k, m) {
      if m < |o| {
        DistinctAt(o, k, m);
      }
    }
  }

  /**
   * `o` lists a circular doubly-linked list through `s`: each element's
   * `nextFree` is the element after it and `prevFree` the one before,
   * wrapping around at the ends.
   */
  ghost predicate Ring(s: seq<BufferHead>, o: seq<nat>)
  {
    |o| >= 1 && Distinct(o) &&
    (forall k :: 0 <= k < |o| ==> o[k] < |s|) &&
    (forall k {:trigger s[o[k]]} :: 0 <= k < |o| - 1 ==> s[o[k]].nextFree == o[k + 1]) &&
    (forall k {:trigger s[o[k]]} :: 0 < k < |o| ==> s[o[k]].prevFree == o[k - 1]) &&
    s[o[|o| - 1]].nextFree == o[0] && s[o[0]].prevFree == o[|o| - 1]
  }

  /** On a ring, `next_free[prev_free[y]] == y` and `prev_free[next_free[y]] == y`. */
  lemma RingInverse(s: seq<BufferHead>, o: seq<nat>, k: nat)
    requires Ring(s, o) && k < |o|
    ensures 0 <= s[o[k]].prevFree < |s| && s[s[o[k]].prevFree].nextFree == o[k]
    ensures 0 <= s[o[k]].nextFree < |s| && s[s[o[k]].nextFree].prevFree == o[k]
  {
    var n := |o|;
    if k > 0 {
      assert s[o[k - 1]].nextFree == o[k];
    }
    if k < n - 1 {
      assert s[o[k + 1]].prevFree == o[k];
    }
  }

  /** The free-list part of `remove_from_queues`, statement by statement. */
  function UnlinkFree(s: seq<BufferHead>, x: nat): (r: seq<BufferHead>)
    requires x < |s| && 0 <= s[x].prevFree < |s| && 0 <= s[x].nextFree < |s|
    ensures |r| == |s|
    ensures forall y :: 0 <= y < |s| ==> SameButLinks(r[y], s[y])
    ensures forall y :: 0 <= y < |s| ==>
              r[y].nextFree == (if y == s[x].prevFree then s[x].nextFree else s[y].nextFree) &&
              r[y].prevFree == (if y == s[x].nextFree then s[x].prevFree else s[y].prevFree)
  {
    var a := s[x].prevFree;
    var c := s[x].nextFree;
    var s1 := s[a := s[a].(nextFree := c)];
    s1[c := s1[c].(prevFree := a)]
  }

  /** The free-list part of `insert_into_queues`: `x` goes just before `head`. */
  function LinkFreeTail(s: seq<BufferHead>, x: nat, head: nat): (r: seq<BufferHead>)
    requires x < |s| && head < |s| && 0 <= s[head].prevFree < |s|
    ensures |r| == |s|
    ensures forall y :: 0 <= y < |s| ==> SameButLinks(r[y], s[y])
  {
    var t := s[head].prevFree;
    var s1 := s[x := s[x].(nextFree := head, prevFree := t)];
    var s2 := s1[t := s1[t].(nextFree := x)];
    s2[head := s2[head].(prevFree := x)]
  }

  /** Unlinking the element at position `p` leaves the rest a ring. */
  lemma UnlinkKeepsRing(s: seq<BufferHead>, o: seq<nat>, p: nat)
    requires Ring(s, o) && |o| >= 2 && p < |o|
    ensures 0 <= s[o[p]].prevFree < |s| && 0 <= s[o[p]].nextFree < |s|
    ensures Ring(UnlinkFree(s, o[p]), Without(o, p))
    ensures Without(o, p)[0] == (if p == 0 then s[o[p]].nextFree else o[0])
  {
    var n := |o|;
    var x := o[p];
    var a := if p > 0 then o[p - 1] else o[n - 1];
    var c := if p < n - 1 then o[p + 1] else o[0];
    assert s[x].prevFree == a && s[x].nextFree == c;
    var r := UnlinkFree(s, x);
    var w := Without(o, p);
    WithoutDistinct(o, p);
    UnlinkNext(s, o, p, r, w, a, c);
    UnlinkPrev(s, o, p, r, w, a, c);
  }

  lemma UnlinkNext(s: seq<BufferHead>, o: seq<nat>, p: nat, r: seq<BufferHead>, w: seq<nat>, a: nat, c: nat)
    requires Ring(s, o) && |o| >= 2 && p < |o|
    requires a == (if p > 0 then o[p - 1] else o[|o| - 1])
    requires c == (if p < |o| - 1 then o[p + 1] else o[0])
    requires |r| == |s| && w == Without(o, p)
    requires forall y :: 0 <= y < |s| ==> r[y].nextFree == (if y == a then c else s[y].nextFree)
    ensures forall k :: 0 <= k < |w| - 1 ==> r[w[k]].nextFree == w[k + 1]
    ensures r[w[|w| - 1]].nextFree == w[0]
  {
    var n := |o|;
    var ia := if p > 0 then p - 1 else n - 1;
    forall k | 0 <= k < |w| - 1 ensures r[w[k]].nextFree == w[k + 1] {
      if k < p - 1 {
        DistinctAt(o, k, ia);
        assert w[k] == o[k] && w[k + 1] == o[k + 1];
      } else if k == p - 1 {
        assert w[k] == a && w[k + 1] == o[p + 1];
      } else {
        DistinctAt(o, k + 1, ia);
        assert w[k] == o[k + 1] && w[k + 1] == o[k + 2];
      }
    }
    if p == n - 1 {
      assert w[|w| - 1] == a;
    } else {
      assert w[|w| - 1] == o[n - 1];
      if p != 0 {
        DistinctAt(o, n - 1, ia);
      }
    }
  }

  lemma UnlinkPrev(s: seq<BufferHead>, o: seq<nat>, p: nat, r: seq<BufferHead>, w: seq<nat>, a: nat, c: nat)
    requires Ring(s, o) && |o| >= 2 && p < |o|
    requires a == (if p > 0 then o[p - 1] else o[|o| - 1])
    requires c == (if p < |o| - 1 then o[p + 1] else o[0])
    requires |r| == |s| && w == Without(o, p)
    requires forall y :: 0 <= y < |s| ==> r[y].prevFree == (if y == c then a else s[y].prevFree)
    ensures forall k :: 0 < k < |w| ==> r[w[k]].prevFree == w[k - 1]
    ensures r[w[0]].prevFree == w[|w| - 1]
    ensures w[0] == (if p == 0 then c else o[0])
  {
    var n := |o|;
    var ic := if p < n - 1 then p + 1 else 0;
    forall k | 0 < k < |w| ensures r[w[k]].prevFree == w[k - 1] {
      if k < p {
        DistinctAt(o, k, ic);
        assert w[k] == o[k] && w[k - 1] == o[k - 1];
      } else if k == p {
        assert w[k] == c && w[k - 1] == o[p - 1];
      } else {
        DistinctAt(o, k + 1, ic);
        assert w[k] == o[k + 1] && w[k - 1] == o[k];
      }
    }
    if p == 0 {
      assert w[0] == c;
    } else {
      assert w[0] == o[0];
      if p != n - 1 {
        DistinctAt(o, 0, ic);
      }
    }
  }

  /** Linking a new element before the head puts it at the end of the ring. */
  lemma LinkTailKeepsRing(s: seq<BufferHead>, o: seq<nat>, x: nat)
    requires Ring(s, o) && x < |s| && x !in o
    ensures 0 <= s[o[0]].prevFree < |s|
    ensures Ring(LinkFreeTail(s, x, o[0]), o + [x])
  {
    var r := LinkFreeTail(s, x, o[0]);
    var w := o + [x];
    var n := |o|;
    assert s[o[0]].prevFree == o[n - 1];
    AppendDistinct(o, x);
    forall k | 0 <= k < |w| - 1 ensures r[w[k]].nextFree == w[k + 1] {
      if k < n - 1 {
        DistinctAt(o, k, n - 1);
      }
    }
    forall k | 0 < k < |w| ensures r[w[k]].prevFree == w[k - 1] {
      if k < n {
        DistinctAt(o, k, 0);
      }
    }
  }

  /** A change that leaves every free-list link in place keeps the ring. */
  lemma SameLinksKeepRing(s: seq<BufferHead>, t: seq<BufferHead>, o: seq<nat>)
    requires Ring(s, o) && |t| == |s|
    requires forall y :: 0 <= y < |s| ==> t[y].nextFree == s[y].nextFree && t[y].prevFree == s[y].prevFree
    ensures Ring(t, o)
  {
  }

  /**
   * The scan of `getblk` over the free list `o`, with `bh` the best buffer
   * seen so far: a buffer with count 0 replaces `bh` only when its
   * `BADNESS` is strictly smaller, and the scan stops at the first one
   * whose `BADNESS` is 0.
   */
  function ScanFree(s: seq<BufferHead>, o: seq<nat>, bh: int): (r: int)
    requires forall k :: 0 <= k < |o| ==> o[k] < |s|
    requires -1 <= bh < |s|
    ensures -1 <= r < |s|
  {
    if o == [] then bh
    else if s[o[0]].count != 0 then ScanFree(s, o[1..], bh)
    else if bh == -1 || Badness(s[o[0]]) < Badness(s[bh]) then
      (if Badness(s[o[0]]) == 0 then o[0] else ScanFree(s, o[1..], o[0]))
    else ScanFree(s, o[1..], bh)
  }

  /**
   * Position `p` of free list `o` holds the buffer `getblk` should take:
   * the first one, in free-list order, among those with count 0 that have
   * the least `BADNESS`.
   */
  ghost predicate VictimAt(s: seq<BufferHead>, o: seq<nat>, p: int)
    requires forall k :: 0 <= k < |o| ==> o[k] < |s|
  {
    0 <= p < |o| && s[o[p]].count == 0 &&
    (forall q {:trigger s[o[q]]} :: 0 <= q < p && s[o[q]].count == 0 ==> Badness(s[o[q]]) > Badness(s[o[p]])) &&
    (forall q {:trigger s[o[q]]} :: 0 <= q < |o| && s[o[q]].count == 0 ==> Badness(s[o[q]]) >= Badness(s[o[p]]))
  }

  ghost predicate IsVictim(s: seq<BufferHead>, o: seq<nat>, x: int)
    requires forall k :: 0 <= k < |o| ==> o[k] < |s|
  {
    exists p :: VictimAt(s, o, p) && o[p] == x
  }

  ghost predicate NoneFree(s: seq<BufferHead>, o: seq<nat>)
    requires forall k :: 0 <= k < |o| ==> o[k] < |s|
  {
    forall q {:trigger s[o[q]]} :: 0 <= q < |o| ==> s[o[q]].count != 0
  }

  /** The scan finds no buffer exactly when every buffer is in use, and otherwise the victim. */
  lemma ScanFreeIsVictim(s: seq<BufferHead>, o: seq<nat>)
    requires forall k :: 0 <= k < |o| ==> o[k] < |s|
    ensures ScanFree(s, o, -1) == -1 <==> NoneFree(s, o)
    ensures ScanFree(s, o, -1) != -1 ==> IsVictim(s, o, ScanFree(s, o, -1))
  {
    ScanFreeFrom(s, [], o, -1, -1);
    assert [] + o == o;
  }

  /** A later buffer that is in use or no better keeps the victim. */
  lemma VictimExtend(s: seq<BufferHead>, pre: seq<nat>, y: nat, pb: nat)
    requires forall k :: 0 <= k < |pre| ==> pre[k] < |s|
    requires y < |s| && VictimAt(s, pre, pb)
    requires s[y].count != 0 || Badness(s[y]) >= Badness(s[pre[pb]])
    ensures VictimAt(s, pre + [y], pb)
  {
    var o := pre + [y];
    assert forall q :: 0 <= q < |pre| ==> o[q] == pre[q];
  }

  /** A later buffer that is strictly better becomes the victim. */
  lemma VictimReplace(s: seq<BufferHead>, pre: seq<nat>, y: nat, bh: int, pb: int)
    requires forall k :: 0 <= k < |pre| ==> pre[k] < |s|
    requires y < |s| && s[y].count == 0 && -1 <= bh < |s|
    requires bh == -1 ==> NoneFree(s, pre)
    requires bh != -1 ==> VictimAt(s, pre, pb) && pre[pb] == bh && Badness(s[y]) < Badness(s[bh])
    ensures VictimAt(s, pre + [y], |pre|)
  {
    var o := pre + [y];
    assert forall q :: 0 <= q < |pre| ==> o[q] == pre[q];
  }

  lemma {:induction false} ScanFreeFrom(s: seq<BufferHead>, pre: seq<nat>, rest: seq<nat>, bh: int, pb: int)
    requires forall k :: 0 <= k < |pre| ==> pre[k] < |s|
    requires forall k :: 0 <= k < |rest| ==> rest[k] < |s|
    requires -1 <= bh < |s|
    requires bh == -1 ==> NoneFree(s, pre)
    requires bh != -1 ==> VictimAt(s, pre, pb) && pre[pb] == bh && Badness(s[bh]) > 0
    ensures ScanFree(s, rest, bh) == -1 <==> NoneFree(s, pre + rest)
    ensures ScanFree(s, rest, bh) != -1 ==> IsVictim(s, pre + rest, ScanFree(s, rest, bh))
    decreases |rest|
  {
    var o := pre + rest;
    if rest == [] {
      assert o == pre;
    } else {
      var y := rest[0];
      var pre' := pre + [y];
      assert pre' + rest[1..] == o;
      assert forall q :: 0 <= q < |pre| ==> pre'[q] == pre[q];
      if s[y].count != 0 {
        if bh != -1 {
          VictimExtend(s, pre, y, pb);
        }
        ScanFreeFrom(s, pre', rest[1..], bh, pb);
      } else if bh == -1 || Badness(s[y]) < Badness(s[bh]) {
        VictimReplace(s, pre, y, bh, pb);
        if Badness(s[y]) == 0 {
          assert forall q :: 0 <= q < |o| ==> Badness(s[o[q]]) >= 0;
          assert VictimAt(s, o, |pre|) by {
            assert forall q :: 0 <= q <= |pre| ==> o[q] == pre'[q];
          }
          assert o[|pre|] == y;
        } else {
          ScanFreeFrom(s, pre', rest[1..], y, |pre|);
        }
      } else {
        VictimExtend(s, pre, y, pb);
        ScanFreeFrom(s, pre', rest[1..], bh, pb);
      }
    }
  }

  /** Every chained head is in range, has a device and sits on its own chain; every head with a device is chained. */
  ghost predicate ChainsOk(s: seq<BufferHead>, t: seq<seq<nat>>)
    requires |t| == NR_HASH
  {
    (forall h, k :: 0 <= h < NR_HASH && 0 <= k < |t[h]| ==>
       t[h][k] < |s| && s[t[h][k]].dev != 0 && HashFn(s[t[h][k]].dev, s[t[h][k]].blocknr) == h) &&
    (forall y :: 0 <= y < |s| && s[y].dev != 0 ==> y in t[HashFn(s[y].dev, s[y].blocknr)])
  }

  /** No two buffers are attached to the same block of the same device. */
  ghost predicate Unique(s: seq<BufferHead>)
  {
    forall y, z {:trigger Holds(s[z], s[y].dev, s[y].blocknr)} ::
      0 <= y < |s| && 0 <= z < |s| && y != z && s[y].dev != 0 ==> !Holds(s[z], s[y].dev, s[y].blocknr)
  }

  predicate SameIds(s: seq<BufferHead>, t: seq<BufferHead>)
  {
    |s| == |t| && forall y :: 0 <= y < |s| ==> s[y].dev == t[y].dev && s[y].blocknr == t[y].blocknr
  }

  lemma SameIdsKeep(s: seq<BufferHead>, s': seq<BufferHead>, t: seq<seq<nat>>)
    requires |t| == NR_HASH && SameIds(s, s')
    ensures ChainsOk(s, t) ==> ChainsOk(s', t)
    ensures Unique(s) ==> Unique(s')
  {
    if Unique(s) {
      forall y, z | 0 <= y < |s'| && 0 <= z < |s'| && y != z && s'[y].dev != 0
        ensures !Holds(s'[z], s'[y].dev, s'[y].blocknr)
      {
        assert !Holds(s[z], s[y].dev, s[y].blocknr);
      }
    }
  }

  /** The hash-queue part of `remove_from_queues` and `insert_into_queues` for head `x` of `s`. */
  function Rehash(t: seq<seq<nat>>, s: seq<BufferHead>, x: nat, dev: u16, block: int): (r: seq<seq<nat>>)
    requires |t| == NR_HASH && x < |s|
    ensures |r| == NR_HASH
  {
    var h := HashFn(s[x].dev, s[x].blocknr);
    var t1 := t[h := Unchain(t[h], x)];
    if dev == 0 then t1
    else var h2 := HashFn(dev, block); t1[h2 := [x] + t1[h2]]
  }

  lemma RehashOk(s: seq<BufferHead>, t: seq<seq<nat>>, x: nat, dev: u16, block: int, s': seq<BufferHead>)
    requires |t| == NR_HASH && x < |s| && ChainsOk(s, t) && |s'| == |s|
    requires forall y :: 0 <= y < |s| && y != x ==> s'[y].dev == s[y].dev && s'[y].blocknr == s[y].blocknr
    requires s'[x].dev == dev && s'[x].blocknr == block
    ensures ChainsOk(s', Rehash(t, s, x, dev, block))
  {
    var r := Rehash(t, s, x, dev, block);
    var hx := HashFn(s[x].dev, s[x].blocknr);
    forall h, k | 0 <= h < NR_HASH && 0 <= k < |r[h]|
      ensures r[h][k] < |s'| && s'[r[h][k]].dev != 0 && HashFn(s'[r[h][k]].dev, s'[r[h][k]].blocknr) == h
    {
      var e := r[h][k];
      assert e in r[h];
      if e != x {
        assert e in t[h];
        var k0 :| 0 <= k0 < |t[h]| && t[h][k0] == e;
      }
    }
    forall y | 0 <= y < |s'| && s'[y].dev != 0
      ensures y in r[HashFn(s'[y].dev, s'[y].blocknr)]
    {
      if y != x {
        assert y in t[HashFn(s[y].dev, s[y].blocknr)];
      }
    }
  }

  /** The links `buffer_init` sets up form one ring in array order. */
  lemma InitRing(s: seq<BufferHead>, n: nat)
    requires n >= 2 && |s| == n
    requires forall y :: 0 <= y < n ==>
               s[y].nextFree == (if y == n - 1 then 0 else y + 1) &&
               s[y].prevFree == (if y == 0 then n - 1 else y - 1)
    ensures var o := seq(n, y => y); Ring(s, o) && forall y :: 0 <= y < n ==> y in o
  {
    var o := seq(n, y => y);
    forall y | 0 <= y < n ensures y in o {
      assert o[y] == y;
    }
  }

  /**
   * The structure of the cache: the free list is one ring through every
   * head starting at `fl`, the hash chains are right, and no block is
   * cached twice.
   */
  ghost predicate CacheInv(s: seq<BufferHead>, t: seq<seq<nat>>, o: seq<nat>, fl: nat)
  {
    |s| >= 2 && |t| == NR_HASH &&
    Ring(s, o) && |o| == |s| && o[0] == fl &&
    (forall y :: 0 <= y < |s| ==> y in o) &&
    ChainsOk(s, t) && Unique(s)
  }

  /** Every free-list link of a ring through every head points at a head. */
  lemma RingLinksInRange(s: seq<BufferHead>, o: seq<nat>)
    requires Ring(s, o) && forall y :: 0 <= y < |s| ==> y in o
    ensures forall y :: 0 <= y < |s| ==> 0 <= s[y].prevFree < |s| && 0 <= s[y].nextFree < |s|
  {
    forall y | 0 <= y < |s| ensures 0 <= s[y].prevFree < |s| && 0 <= s[y].nextFree < |s| {
      assert y in o;
      var k :| 0 <= k < |o| && o[k] == y;
      RingInverse(s, o, k);
    }
  }

  /** The heads after `remove_from_queues`, the new identity and `insert_into_queues`. */
  function Requeued(s: seq<BufferHead>, fl: nat, x: nat, dev: u16, block: int): (r: seq<BufferHead>)
    requires x < |s| && fl < |s|
    requires forall y :: 0 <= y < |s| ==> 0 <= s[y].prevFree < |s| && 0 <= s[y].nextFree < |s|
    ensures |r| == |s|
  {
    var s1 := UnlinkFree(s, x);
    var fl' := if fl == x then s[x].nextFree else fl;
    var s2 := s1[x := s1[x].(dev := dev, blocknr := block)];
    LinkFreeTail(s2, x, fl')
  }

  /** The free-list head after `remove_from_queues`. */
  function RequeuedHead(s: seq<BufferHead>, fl: nat, x: nat): (r: int)
    requires x < |s|
  {
    if fl == x then s[x].nextFree else fl
  }

  /** `Requeued` keeps the free list one ring, with `x` moved to its tail. */
  lemma RequeueRing(s: seq<BufferHead>, o: seq<nat>, fl: nat, x: nat, p: nat, dev: u16, block: int)
    requires Ring(s, o) && |o| == |s| >= 2 && o[0] == fl && p < |o| && o[p] == x
    requires forall y :: 0 <= y < |s| ==> 0 <= s[y].prevFree < |s| && 0 <= s[y].nextFree < |s|
    ensures Ring(Requeued(s, fl, x, dev, block), Without(o, p) + [x])
    ensures (Without(o, p) + [x])[0] == RequeuedHead(s, fl, x)
  {
    UnlinkKeepsRing(s, o, p);
    var w := Without(o, p);
    var s1 := UnlinkFree(s, x);
    var fl' := RequeuedHead(s, fl, x);
    assert fl' == w[0];
    var s2 := s1[x := s1[x].(dev := dev, blocknr := block)];
    WithoutDistinct(o, p);
    assert Ring(s2, w) by {
      assert forall k :: 0 <= k < |w| ==> s2[w[k]] == s1[w[k]];
    }
    LinkTailKeepsRing(s2, w, x);
  }

  /** Moving `x` from position `p` to the end keeps every head listed. */
  lemma MoveCovers(o: seq<nat>, p: nat, x: nat, n: nat)
    requires p < |o| && o[p] == x && forall y :: 0 <= y < n ==> y in o
    ensures forall y :: 0 <= y < n ==> y in Without(o, p) + [x]
  {
    var o' := Without(o, p) + [x];
    forall y | 0 <= y < n ensures y in o' {
      if y != x {
        assert y in o;
        var q :| 0 <= q < |o| && o[q] == y;
        if q < p {
          assert o'[q] == y;
        } else {
          assert o'[q - 1] == y;
        }
      }
    }
  }

  /** Giving `x` an identity no other head has keeps identities unique. */
  lemma RenameUnique(s: seq<BufferHead>, r: seq<BufferHead>, x: nat, dev: u16, block: int)
    requires Unique(s) && |r| == |s| && x < |s|
    requires forall y :: 0 <= y < |s| && y != x ==> r[y].dev == s[y].dev && r[y].blocknr == s[y].blocknr
    requires r[x].dev == dev && r[x].blocknr == block
    requires dev != 0 ==> forall y :: 0 <= y < |s| && y != x ==> !Holds(s[y], dev, block)
    ensures Unique(r)
  {
    forall y, z | 0 <= y < |r| && 0 <= z < |r| && y != z && r[y].dev != 0
      ensures !Holds(r[z], r[y].dev, r[y].blocknr)
    {
      if y != x && z != x {
        assert !Holds(s[z], s[y].dev, s[y].blocknr);
      } else if y != x {
        assert !Holds(s[y], dev, block);
      }
    }
  }

  /** `Requeued` keeps the structure, and moves `x` to the tail of the free list. */
  lemma RequeueKeeps(s: seq<BufferHead>, t: seq<seq<nat>>, o: seq<nat>, fl: nat, x: nat, p: nat,
                     dev: u16, block: int)
    requires CacheInv(s, t, o, fl) && p < |o| && o[p] == x
    requires dev != 0 ==> forall y :: 0 <= y < |s| && y != x ==> !Holds(s[y], dev, block)
    ensures forall y :: 0 <= y < |s| ==> 0 <= s[y].prevFree < |s| && 0 <= s[y].nextFree < |s|
    ensures 0 <= RequeuedHead(s, fl, x) < |s|
    ensures CacheInv(Requeued(s, fl, x, dev, block), Rehash(t, s, x, dev, block),
                     Without(o, p) + [x], RequeuedHead(s, fl, x))
    ensures var r := Requeued(s, fl, x, dev, block);
            r[x].dev == dev && r[x].blocknr == block &&
            SameButLinks(r[x], s[x].(dev := dev, blocknr := block)) &&
            forall y :: 0 <= y < |s| && y != x ==> SameButLinks(r[y], s[y])
    ensures forall y :: 0 <= y < |s| ==> Requeued(s, fl, x, dev, block)[y].data == s[y].data
  {
    RingLinksInRange(s, o);
    RequeueRing(s, o, fl, x, p, dev, block);
    var r := Requeued(s, fl, x, dev, block);
    RehashOk(s, t, x, dev, block, r);
    MoveCovers(o, p, x, |s|);
    RenameUnique(s, r, x, dev, block);
  }

  /** The values `remove_from_queues`, the new identity and `insert_into_queues` leave behind. */
  method RequeueValues(s: seq<BufferHead>, t: seq<seq<nat>>, ghost o: seq<nat>, fl: nat, x: nat, ghost p: nat,
                       dev: u16, block: int)
    returns (s': seq<BufferHead>, t': seq<seq<nat>>, fl': nat)
    requires CacheInv(s, t, o, fl) && p < |o| && o[p] == x
    requires forall y :: 0 <= y < |s| ==> |s[y].data| == BLOCK_SIZE
    requires dev != 0 ==> forall y :: 0 <= y < |s| && y != x ==> !Holds(s[y], dev, block)
    ensures CacheInv(s', t', Without(o, p) + [x], fl')
    ensures |s'| == |s| && s'[x].dev == dev && s'[x].blocknr == block
    ensures SameButLinks(s'[x], s[x].(dev := dev, blocknr := block))
    ensures forall y :: 0 <= y < |s| && y != x ==> SameButLinks(s'[y], s[y])
    ensures forall y :: 0 <= y < |s| ==> |s'[y].data| == BLOCK_SIZE
  {
    RequeueKeeps(s, t, o, fl, x, p, dev, block);
    t' := Rehash(t, s, x, dev, block);
    fl' := RequeuedHead(s, fl, x);
    s' := Requeued(s, fl, x, dev, block);
  }

  /** The disk after the dirty buffers of `dev` among the first `n` of `s` are written, in order. */
  function SyncedDisk(s: seq<BufferHead>, dev: u16, n: nat, disk: map<(int, int), seq<byte>>)
    : (d: map<(int, int), seq<byte>>)
    requires n <= |s|
    decreases n
  {
    if n == 0 then disk
    else
      var d := SyncedDisk(s, dev, n - 1, disk);
      if s[n - 1].dev == dev && s[n - 1].dirt then d[(dev, s[n - 1].blocknr) := s[n - 1].data] else d
  }

  /** The blocks on disk after `do_sync` are those before and the dirty ones of `dev`. */
  lemma {:induction false} SyncedDiskKeys(s: seq<BufferHead>, dev: u16, n: nat, disk: map<(int, int), seq<byte>>)
    requires n <= |s|
    ensures forall key :: key in SyncedDisk(s, dev, n, disk) <==> key in disk || Flushed(s, dev, n, key)
  {
    if n > 0 {
      SyncedDiskKeys(s, dev, n - 1, disk);
      forall key | Flushed(s, dev, n, key) && !Flushed(s, dev, n - 1, key)
        ensures key == (dev, s[n - 1].blocknr) && s[n - 1].dev == dev && s[n - 1].dirt
      {
      }
      forall key | Flushed(s, dev, n - 1, key) ensures Flushed(s, dev, n, key) {
        var y :| 0 <= y < n - 1 && s[y].dev == dev && s[y].dirt && key == (dev, s[y].blocknr);
      }
    }
  }

  /** Blocks of other devices, and blocks no dirty buffer holds, keep their contents. */
  lemma {:induction false} SyncedDiskOthers(s: seq<BufferHead>, dev: u16, n: nat,
                                            disk: map<(int, int), seq<byte>>, key: (int, int))
    requires n <= |s| && key in disk && !Flushed(s, dev, n, key)
    ensures key in SyncedDisk(s, dev, n, disk) && SyncedDisk(s, dev, n, disk)[key] == disk[key]
  {
    if n > 0 {
      SyncedDiskOthers(s, dev, n - 1, disk, key);
    }
  }

  /** With no block cached twice, every dirty buffer of `dev` is what the disk now holds. */
  lemma {:induction false} SyncedDiskWrites(s: seq<BufferHead>, dev: u16, n: nat,
                                            disk: map<(int, int), seq<byte>>, y: nat)
    requires n <= |s| && Unique(s) && dev != 0
    requires y < n && s[y].dev == dev && s[y].dirt
    ensures (dev, s[y].blocknr) in SyncedDisk(s, dev, n, disk)
    ensures SyncedDisk(s, dev, n, disk)[(dev, s[y].blocknr)] == s[y].data
  {
    if y < n - 1 {
      SyncedDiskWrites(s, dev, n - 1, disk, y);
      assert !Holds(s[n - 1], s[y].dev, s[y].blocknr);
    }
  }

  /** `key` names a dirty block of `dev` among the first `n` buffers of `s`. */
  ghost predicate Flushed(s: seq<BufferHead>, dev: u16, n: nat, key: (int, int))
    requires n <= |s|
  {
    exists y :: 0 <= y < n && s[y].dev == dev && s[y].dirt && key == (dev, s[y].blocknr)
  }

  /** The reference counts of `s` and `s'` agree except at `r`. */
  ghost predicate CountsKept(s: seq<BufferHead>, s': seq<BufferHead>, r: int)
  {
    |s| == |s'| && forall y :: 0 <= y < |s| && y != r ==> s'[y].count == s[y].count
  }

  /** The miss path of `getblk`: victim `r` of `(s, o)` is now `(dev, block)`. */
  ghost predicate Claimed(s: seq<BufferHead>, o: seq<nat>, disk: map<(int, int), seq<byte>>,
                          s': seq<BufferHead>, o': seq<nat>, disk': map<(int, int), seq<byte>>,
                          r: nat, dev: u16, block: int)
    requires forall k :: 0 <= k < |o| ==> o[k] < |s|
    requires r < |s| && r < |s'|
  {
    IsVictim(s, o, r) &&
    s'[r].dev == dev && s'[r].blocknr == block &&
    s'[r].count == 1 && !s'[r].dirt && !s'[r].uptodate &&
    s'[r].lock == s[r].lock && s'[r].data == s[r].data &&
    |s'| == |s| && (forall y :: 0 <= y < |s| && y != r ==> SameButLinks(s'[y], s[y])) &&
    (exists p :: 0 <= p < |o| && o[p] == r && o' == Without(o, p) + [r]) &&
    disk' == (if s[r].dirt then disk[(s[r].dev, s[r].blocknr) := s[r].data] else disk)
  }

  /**
   * The miss path of `getblk` on values: the victim `r` is written back if
   * dirty, marked as holding nothing yet, and moved to `(dev, block)` and
   * to the tail of the free list.
   */
  method ClaimValues(s: seq<BufferHead>, t: seq<seq<nat>>, ghost o: seq<nat>, fl: nat,
                     disk: map<(int, int), seq<byte>>, r: nat, dev: u16, block: int)
    returns (s': seq<BufferHead>, t': seq<seq<nat>>, fl': nat, disk': map<(int, int), seq<byte>>,
             ghost o': seq<nat>)
    requires CacheInv(s, t, o, fl) && r < |s| && s[r].count == 0
    requires forall y :: 0 <= y < |s| ==> |s[y].data| == BLOCK_SIZE
    requires forall key :: key in disk ==> |disk[key]| == BLOCK_SIZE
    requires !Cached(s, dev, block) && IsVictim(s, o, r)
    ensures CacheInv(s', t', o', fl') && |s'| == |s|
    ensures forall y :: 0 <= y < |s'| ==> |s'[y].data| == BLOCK_SIZE
    ensures forall key :: key in disk' ==> |disk'[key]| == BLOCK_SIZE
    ensures Claimed(s, o, disk, s', o', disk', r, dev, block)
  {
    disk' := if s[r].dirt then disk[(s[r].dev, s[r].blocknr) := s[r].data] else disk;
    var s1 := s[r := s[r].(count := 1, dirt := false, uptodate := false)];
    SameLinksKeepRing(s, s1, o);
    SameIdsKeep(s, s1, t);
    ghost var p :| VictimAt(s, o, p) && o[p] == r;
    s', t', fl' := RequeueValues(s1, t, o, fl, r, p, dev, block);
    o' := Without(o, p) + [r];
    assert forall y :: 0 <= y < |s| && y != r ==> SameButLinks(s1[y], s[y]);
  }

  /** Every buffer that is referenced in `s` keeps its identity in `s'`. */
  ghost predicate HeldKept(s: seq<BufferHead>, s': seq<BufferHead>)
  {
    |s| == |s'| &&
    forall y :: 0 <= y < |s| && s[y].count > 0 ==> s'[y].dev == s[y].dev && s'[y].blocknr == s[y].blocknr
  }

  /**
   * Buffer `b` (now `b'`) keeps its identity and the disk block it names;
   * contents it had up to date stay, and contents it gains are the disk's.
   */
  ghost predicate FreshAt(b: BufferHead, disk: map<(int, int), seq<byte>>,
                          b': BufferHead, disk': map<(int, int), seq<byte>>)
  {
    var key := (b.dev, b.blocknr);
    b'.dev == b.dev && b'.blocknr == b.blocknr &&
    (key in disk' <==> key in disk) && (key in disk ==> disk'[key] == disk[key]) &&
    (b.uptodate ==> b'.uptodate && b'.data == b.data) &&
    (b'.uptodate && !b.uptodate ==> key in disk && b'.data == disk[key])
  }

  /** `FreshAt` for every buffer of a device that is referenced in `s`. */
  ghost predicate HeldFresh(s: seq<BufferHead>, disk: map<(int, int), seq<byte>>,
                            s': seq<BufferHead>, disk': map<(int, int), seq<byte>>)
  {
    |s| == |s'| &&
    forall y :: 0 <= y < |s| && s[y].count > 0 && s[y].dev != 0 ==> FreshAt(s[y], disk, s'[y], disk')
  }

  /**
   * The miss path of `getblk` leaves every referenced buffer and its disk
   * block alone: the victim is unreferenced, and the block it writes back
   * is its own, which no other buffer holds.
   */
  lemma ClaimedHeldFresh(s: seq<BufferHead>, t: seq<seq<nat>>, o: seq<nat>, fl: nat,
                         disk: map<(int, int), seq<byte>>,
                         s': seq<BufferHead>, o': seq<nat>, disk': map<(int, int), seq<byte>>,
                         r: nat, dev: u16, block: int)
    requires CacheInv(s, t, o, fl) && r < |s| && r < |s'|
    requires Claimed(s, o, disk, s', o', disk', r, dev, block)
    ensures HeldFresh(s, disk, s', disk')
  {
    forall y | 0 <= y < |s| && s[y].count > 0 && s[y].dev != 0
      ensures FreshAt(s[y], disk, s'[y], disk')
    {
      var p :| VictimAt(s, o, p) && o[p] == r;
      assert y != r;
      assert !Holds(s[r], s[y].dev, s[y].blocknr);
      assert SameButLinks(s'[y], s[y]);
    }
  }

  /** What the miss path tells about counts: the victim was free and now has the one reference. */
  lemma ClaimedCounts(s: seq<BufferHead>, o: seq<nat>, disk: map<(int, int), seq<byte>>,
                      s': seq<BufferHead>, o': seq<nat>, disk': map<(int, int), seq<byte>>,
                      r: nat, dev: u16, block: int)
    requires forall k :: 0 <= k < |o| ==> o[k] < |s|
    requires r < |s| && r < |s'|
    requires Claimed(s, o, disk, s', o', disk', r, dev, block)
    ensures CountsKept(s, s', r) && s[r].count == 0 && s'[r].count == s[r].count + 1
    ensures HeldKept(s, s')
  {
    var p :| VictimAt(s, o, p) && o[p] == r;
    forall y | 0 <= y < |s| && y != r
      ensures s'[y].count == s[y].count && s'[y].dev == s[y].dev && s'[y].blocknr == s[y].blocknr
    {
      assert SameButLinks(s'[y], s[y]);
      var a, b := s'[y].(prevFree := 0, nextFree := 0), s[y].(prevFree := 0, nextFree := 0);
      assert a.count == b.count && a.dev == b.dev && a.blocknr == b.blocknr;
    }
  }

  class BufferCache {
    var heads: seq<BufferHead>
    var hash: seq<seq<nat>>
    var freeList: nat
    var disk: map<(int, int), seq<byte>>
    ghost var order: seq<nat>

    ghost predicate Valid()
      reads this
    {
      CacheInv(heads, hash, order, freeList) &&
      (forall key :: key in disk ==> |disk[key]| == BLOCK_SIZE) &&
      (forall y :: 0 <= y < |heads| ==> |heads[y].data| == BLOCK_SIZE)
    }

    /** `buffer_init`: every head free, without a device, on one ring in array order. */
    constructor Init(n: nat, disk0: map<(int, int), seq<byte>>)
      requires n >= 2
      requires forall key :: key in disk0 ==> |disk0[key]| == BLOCK_SIZE
      ensures Valid()
      ensures |heads| == n && freeList == 0 && disk == disk0
      ensures forall y :: 0 <= y < n ==>
                heads[y].dev == 0 && heads[y].count == 0 &&
                !heads[y].dirt && !heads[y].uptodate && !heads[y].lock
      ensures forall y :: 0 <= y < n ==>
                heads[y].nextFree == (if y == n - 1 then 0 else y + 1) &&
                heads[y].prevFree == (if y == 0 then n - 1 else y - 1)
      ensures forall h :: 0 <= h < NR_HASH ==> hash[h] == []
    {
      var s: seq<BufferHead> := [];
      var i := 0;
      while i < n
        invariant 0 <= i <= n && |s| == i
        invariant forall y :: 0 <= y < i ==>
          s[y] == BufferHead(0, 0, false, false, 0, false,
                             if y == 0 then n - 1 else y - 1,
                             if y == n - 1 then 0 else y + 1, Zeros(BLOCK_SIZE))
      {
        s := s + [BufferHead(0, 0, false, false, 0, false,
                             if i == 0 then n - 1 else i - 1,
                             if i == n - 1 then 0 else i + 1, Zeros(BLOCK_SIZE))];
        i := i + 1;
      }
      heads := s;
      hash := seq(NR_HASH, _ => []);
      freeList := 0;
      disk := disk0;
      order := seq(n, y => y);
      new;
      InitRing(heads, n);
    }

    /** `find_buffer`: walk the hash chain of `(dev, block)`. */
    method FindBuffer(dev: u16, block: int) returns (r: int)
      requires Valid()
      ensures -1 <= r < |heads|
      ensures r >= 0 ==> Holds(heads[r], dev, block)
      ensures r == -1 <==> !Cached(heads, dev, block)
    {
      var chain := hash[HashFn(dev, block)];
      var k := 0;
      while k < |chain|
        invariant 0 <= k <= |chain|
        invariant forall m :: 0 <= m < k ==> !Holds(heads[chain[m]], dev, block)
      {
        var t := chain[k];
        if heads[t].dev == dev && heads[t].blocknr == block {
          return t;
        }
        k := k + 1;
      }
      return -1;
    }

    /** Replace the heads by `s`, which changes no identity and no free-list link. */
    method SetHeads(s: seq<BufferHead>)
      requires Valid() && |s| == |heads|
      requires forall y :: 0 <= y < |s| ==>
                 s[y].dev == heads[y].dev && s[y].blocknr == heads[y].blocknr &&
                 s[y].nextFree == heads[y].nextFree && s[y].prevFree == heads[y].prevFree &&
                 |s[y].data| == BLOCK_SIZE
      modifies this
      ensures Valid() && heads == s
      ensures order == old(order) && hash == old(hash) && disk == old(disk) && freeList == old(freeList)
    {
      ghost var s0 := heads;
      heads := s;
      SameLinksKeepRing(s0, heads, order);
      SameIdsKeep(s0, heads, hash);
    }

    /** `get_hash_table`: a cached buffer, with one more reference. */
    method GetHashTable(dev: u16, block: int) returns (r: int)
      requires Valid()
      modifies this
      ensures Valid() && order == old(order) && freeList == old(freeList)
      ensures hash == old(hash) && disk == old(disk)
      ensures -1 <= r < |heads|
      ensures r == -1 ==> !Cached(old(heads), dev, block) && heads == old(heads)
      ensures r >= 0 ==>
                Holds(heads[r], dev, block) &&
                heads == old(heads)[r := old(heads)[r].(count := old(heads)[r].count + 1)]
    {
      r := FindBuffer(dev, block);
      if r >= 0 {
        SetHeads(heads[r := heads[r].(count := heads[r].count + 1)]);
      }
    }

    /** The free-list scan of `getblk`: the buffer to take, or -1 when all are in use. */
    method PickVictim() returns (bh: int)
      requires Valid()
      ensures -1 <= bh < |heads|
      ensures bh == ScanFree(heads, order, -1)
    {
      var tmp := freeList;
      bh := -1;
      ghost var k := 0;
      while true
        invariant 0 <= k < |order| && tmp == order[k]
        invariant -1 <= bh < |heads|
        invariant ScanFree(heads, order[k..], bh) == ScanFree(heads, order, -1)
        decreases |order| - k
      {
        assert order[k..] == [tmp] + order[k + 1..];
        if heads[tmp].count == 0 {
          if bh == -1 || Badness(heads[tmp]) < Badness(heads[bh]) {
            bh := tmp;
            if Badness(heads[tmp]) == 0 {
              return;
            }
          }
        }
        tmp := heads[tmp].nextFree;
        k := k + 1;
        if k < |order| {
          DistinctAt(order, k, 0);
          assert tmp == order[k];
        } else {
          assert tmp == order[0];
        }
        if tmp == freeList {
          assert order[k..] == [];
          return;
        }
      }
    }

    /** The miss path of `getblk` once victim `r` is chosen. */
    method Claim(r: nat, dev: u16, block: int)
      requires Valid() && r < |heads| && heads[r].count == 0
      requires !Cached(heads, dev, block)
      requires IsVictim(heads, order, r)
      modifies this
      ensures Valid() && |heads| == |old(heads)|
      ensures Claimed(old(heads), old(order), old(disk), heads, order, disk, r, dev, block)
    {
      heads, hash, freeList, disk, order := ClaimValues(heads, hash, order, freeList, disk, r, dev, block);
    }

    /**
     * `getblk`: the buffer of `(dev, block)` with one more reference,
     * taking a new one from the free list if the block is not cached.
     * Where the source would sleep until some buffer is released (every
     * buffer in use), the model returns -1.
     */
    method GetBlk(dev: u16, block: int) returns (r: int)
      requires Valid()
      modifies this
      ensures Valid() && -1 <= r < |heads| && CountsKept(old(heads), heads, r)
      ensures HeldKept(old(heads), heads)
      ensures HeldFresh(old(heads), old(disk), heads, disk)
      ensures r >= 0 ==> heads[r].dev == dev && heads[r].blocknr == block &&
                         heads[r].count == old(heads)[r].count + 1
      ensures Cached(old(heads), dev, block) ==>
                r >= 0 && disk == old(disk) && order == old(order) &&
                heads == old(heads)[r := old(heads)[r].(count := old(heads)[r].count + 1)]
      ensures !Cached(old(heads), dev, block) && r == -1 ==>
                NoneFree(old(heads), old(order)) && heads == old(heads) && disk == old(disk)
      ensures !Cached(old(heads), dev, block) && r >= 0 ==>
                Claimed(old(heads), old(order), old(disk), heads, order, disk, r, dev, block)
    {
      r := GetHashTable(dev, block);
      if r >= 0 {
        return;
      }
      assert heads == old(heads) && order == old(order) && disk == old(disk);
      r := PickVictim();
      ScanFreeIsVictim(heads, order);
      if r == -1 {
        return;
      }
      Claim(r, dev, block);
      ClaimedCounts(old(heads), old(order), old(disk), heads, order, disk, r, dev, block);
      ClaimedHeldFresh(old(heads), old(hash), old(order), old(freeList), old(disk), heads, order, disk, r, dev, block);
    }

    /** `brelse`: give up one reference; NULL is ignored. */
    method Brelse(x: int)
      requires Valid()
      requires x == -1 || (0 <= x < |heads| && heads[x].count > 0)
      modifies this
      ensures Valid() && order == old(order) && hash == old(hash) && disk == old(disk)
      ensures x == -1 ==> heads == old(heads)
      ensures x != -1 ==> heads == old(heads)[x := old(heads)[x].(count := old(heads)[x].count - 1)]
    {
      if x == -1 {
        return;
      }
      SetHeads(heads[x := heads[x].(count := heads[x].count - 1)]);
    }

    /** `ll_rw_block(READ, bh)` (and READA): fill the buffer from the disk if the block is readable. */
    method ReadBlock(x: nat)
      requires Valid() && x < |heads|
      modifies this
      ensures Valid() && order == old(order) && hash == old(hash) && disk == old(disk)
      ensures (old(heads)[x].dev, old(heads)[x].blocknr) in disk ==>
                heads == old(heads)[x := old(heads)[x].(data := disk[(old(heads)[x].dev, old(heads)[x].blocknr)],
                                                        uptodate := true)]
      ensures (old(heads)[x].dev, old(heads)[x].blocknr) !in disk ==> heads == old(heads)
    {
      var key := (heads[x].dev, heads[x].blocknr);
      if key in disk {
        SetHeads(heads[x := heads[x].(data := disk[key], uptodate := true)]);
      }
    }

    /** The end of `bread` and `breada`: keep the buffer if its contents are valid, else release it. */
    method KeepIfUptodate(x: nat) returns (r: int)
      requires Valid() && x < |heads| && heads[x].count > 0
      modifies this
      ensures Valid() && order == old(order) && hash == old(hash) && disk == old(disk)
      ensures old(heads)[x].uptodate ==> r == x && heads == old(heads)
      ensures !old(heads)[x].uptodate ==>
                r == -1 && heads == old(heads)[x := old(heads)[x].(count := old(heads)[x].count - 1)]
    {
      if heads[x].uptodate {
        return x;
      }
      Brelse(x);
      r := -1;
    }

    /**
     * The start of `bread` and `breada`: `getblk`, then `ll_rw_block(READ)`
     * unless the buffer is already up to date.
     */
    method StartRead(dev: u16, block: int) returns (r: int)
      requires Valid()
      modifies this
      ensures Valid() && -1 <= r < |heads| && CountsKept(old(heads), heads, r)
      ensures HeldKept(old(heads), heads)
      ensures HeldFresh(old(heads), old(disk), heads, disk)
      ensures r >= 0 ==>
                heads[r].dev == dev && heads[r].blocknr == block &&
                heads[r].count == old(heads)[r].count + 1
      ensures r >= 0 && Cached(old(heads), dev, block) && old(heads)[r].uptodate ==> heads[r].uptodate
      ensures r >= 0 && !(Cached(old(heads), dev, block) && old(heads)[r].uptodate) ==>
                (heads[r].uptodate <==> (dev, block) in disk) &&
                (heads[r].uptodate ==> heads[r].data == disk[(dev, block)])
      ensures r == -1 ==> !Cached(old(heads), dev, block) && NoneFree(old(heads), old(order))
    {
      r := GetBlk(dev, block);
      if r >= 0 && !heads[r].uptodate {
        ReadBlock(r);
      }
    }

    /**
     * `bread`: a referenced, up-to-date buffer holding `(dev, block)`, or
     * -1 when the block cannot be read (the reference is given back).
     */
    method Bread(dev: u16, block: int) returns (r: int)
      requires Valid()
      modifies this
      ensures Valid() && -1 <= r < |heads| && CountsKept(old(heads), heads, r)
      ensures r >= 0 ==>
                heads[r].dev == dev && heads[r].blocknr == block && heads[r].uptodate &&
                heads[r].count == old(heads)[r].count + 1
      ensures r >= 0 && !(Cached(old(heads), dev, block) && old(heads)[r].uptodate) ==>
                (dev, block) in disk && heads[r].data == disk[(dev, block)]
      ensures r == -1 ==>
                (dev, block) !in disk || (!Cached(old(heads), dev, block) && NoneFree(old(heads), old(order)))
    {
      r := StartRead(dev, block);
      if r == -1 {
        return;
      }
      r := KeepIfUptodate(r);
    }

    /** One read-ahead block of `breada`: read it if needed and drop the reference at once. */
    method ReadAhead(dev: u16, block: int)
      requires Valid()
      modifies this
      ensures Valid() && |heads| == |old(heads)|
      ensures forall y :: 0 <= y < |heads| ==> heads[y].count == old(heads)[y].count
      ensures HeldKept(old(heads), heads)
      ensures HeldFresh(old(heads), old(disk), heads, disk)
    {
      var tmp := StartRead(dev, block);
      if tmp >= 0 {
        Brelse(tmp);
      }
    }

    /** The read-ahead loop of `breada`: the blocks of `ahead` up to the first negative one. */
    method ReadAheadAll(dev: u16, ahead: seq<int>)
      requires Valid()
      modifies this
      ensures Valid() && |heads| == |old(heads)|
      ensures forall y :: 0 <= y < |heads| ==> heads[y].count == old(heads)[y].count
      ensures HeldKept(old(heads), heads)
      ensures HeldFresh(old(heads), old(disk), heads, disk)
    {
      var i := 0;
      while i < |ahead| && ahead[i] >= 0
        invariant 0 <= i <= |ahead|
        invariant Valid() && |heads| == |old(heads)|
        invariant forall y :: 0 <= y < |heads| ==> heads[y].count == old(heads)[y].count
        invariant HeldKept(old(heads), heads)
        invariant HeldFresh(old(heads), old(disk), heads, disk)
      {
        ReadAhead(dev, ahead[i]);
        i := i + 1;
      }
    }

    /**
     * `breada`: `bread` of `first`, and read-ahead of the blocks of `ahead`
     * up to the first negative one, keeping no reference on them.
     */
    method Breada(dev: u16, first: int, ahead: seq<int>) returns (r: int)
      requires Valid()
      modifies this
      ensures Valid() && -1 <= r < |heads| && CountsKept(old(heads), heads, r)
      ensures r >= 0 ==>
                heads[r].dev == dev && heads[r].blocknr == first && heads[r].uptodate &&
                heads[r].count == old(heads)[r].count + 1
      ensures dev != 0 && r >= 0 && !(Cached(old(heads), dev, first) && old(heads)[r].uptodate) ==>
                (dev, first) in disk && heads[r].data == disk[(dev, first)]
      ensures dev != 0 && r == -1 ==>
                (dev, first) !in disk || (!Cached(old(heads), dev, first) && NoneFree(old(heads), old(order)))
    {
      var bh := StartRead(dev, first);
      if bh == -1 {
        return -1;
      }
      ReadAheadAll(dev, ahead);
      r := KeepIfUptodate(bh);
    }

    /** `invalidate_buffers`: forget the contents of every buffer of `dev`. */
    method InvalidateBuffers(dev: u16)
      requires Valid()
      modifies this
      ensures Valid() && order == old(order) && hash == old(hash) && disk == old(disk)
      ensures |heads| == |old(heads)|
      ensures forall y :: 0 <= y < |heads| ==>
                heads[y] == if old(heads)[y].dev == dev
                            then old(heads)[y].(uptodate := false, dirt := false)
                            else old(heads)[y]
    {
      var i := 0;
      while i < |heads|
        invariant 0 <= i <= |heads| == |old(heads)|
        invariant Valid() && order == old(order) && hash == old(hash) && disk == old(disk)
        invariant forall y :: 0 <= y < |heads| ==>
                    heads[y] == if y < i && old(heads)[y].dev == dev
                                then old(heads)[y].(uptodate := false, dirt := false)
                                else old(heads)[y]
      {
        if heads[i].dev == dev {
          SetHeads(heads[i := heads[i].(uptodate := false, dirt := false)]);
        }
        i := i + 1;
      }
    }

    /** `do_sync`: write every dirty buffer of `dev` to the disk. */
    method DoSync(dev: u16)
      requires Valid()
      modifies this
      ensures Valid() && order == old(order) && hash == old(hash)
      ensures |heads| == |old(heads)|
      ensures forall y :: 0 <= y < |heads| ==>
                heads[y] == if old(heads)[y].dev == dev then old(heads)[y].(dirt := false) else old(heads)[y]
      ensures disk == SyncedDisk(old(heads), dev, |heads|, old(disk))
    {
      var i := 0;
      while i < |heads|
        invariant 0 <= i <= |heads| == |old(heads)|
        invariant Valid() && order == old(order) && hash == old(hash)
        invariant forall y :: 0 <= y < |heads| ==>
                    heads[y] == if y < i && old(heads)[y].dev == dev
                                then old(heads)[y].(dirt := false)
                                else old(heads)[y]
        invariant disk == SyncedDisk(old(heads), dev, i, old(disk))
      {
        if heads[i].dev == dev && heads[i].dirt {
          disk := disk[(dev, heads[i].blocknr) := heads[i].data];
          SetHeads(heads[i := heads[i].(dirt := false)]);
        }
        i := i + 1;
      }
    }

    /**
     * What the callers of `bread`/`getblk` do to a buffer they hold: store
     * new contents and set `b_dirt` and `b_uptodate`.
     */
    method Store(x: nat, d: seq<byte>, dirt: bool, uptodate: bool)
      requires Valid() && x < |heads| && |d| == BLOCK_SIZE
      modifies this
      ensures Valid() && order == old(order) && hash == old(hash) && disk == old(disk)
      ensures heads == old(heads)[x := old(heads)[x].(data := d, dirt := dirt, uptodate := uptodate)]
    {
      SetHeads(heads[x := heads[x].(data := d, dirt := dirt, uptodate := uptodate)]);
    }
  }
}
