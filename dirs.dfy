/*
 * The directory layer of fs/namei.c: the `permission` and `match`
 * tests, and the three scans over the 16-byte entries of a directory
 * (`find_entry`, `is_empty_dir`, `add_entry_safely`).
 *
 * Entry `k` of a directory is slot `k % 64` of its block `k / 64`, whose
 * zone `bmap` gives; the block contents come from the block store of
 * the file-system tables, where a missing block is one `bread` cannot
 * read. A directory is its in-core inode; the scans return what they
 * found and the new inode and blocks, and the system calls of namei.c
 * store them.
 */
module Dirs {
  import opened Layout
  import opened Records
  import opened Tables
  import opened Bits
  import opened Bmap

  const MAY_EXEC: int := 1
  const MAY_WRITE: int := 2
  const MAY_READ: int := 4

  /** The most entries a directory can have before `_bmap` halts on a block past the last. */
  const MAX_ENTRIES: nat := MAX_FILE_BLOCKS * DIR_ENTRIES_PER_BLOCK

  // ---------------------------------------------------------------------
  // permission()
  // ---------------------------------------------------------------------

  /** `a & b` on naturals. */
  function And(a: nat, b: nat): (r: nat)
  {
    if a == 0 || b == 0 then 0
    else 2 * And(a / 2, b / 2) + (if a % 2 == 1 && b % 2 == 1 then 1 else 0)
  }

  lemma {:induction false} ZeroBits(k: nat)
    ensures !BitOf(0, k)
  {
    if k > 0 {
      ZeroBits(k - 1);
    }
  }

  /** Bit `k` of `a & b` is set exactly when it is set in both. */
  lemma {:induction false} AndBit(a: nat, b: nat, k: nat)
    ensures BitOf(And(a, b), k) == (BitOf(a, k) && BitOf(b, k))
  {
    if a == 0 || b == 0 {
      ZeroBits(k);
    } else if k > 0 {
      AndBit(a / 2, b / 2, k - 1);
    }
  }

  lemma {:induction false} AndLe(a: nat, b: nat)
    ensures And(a, b) <= b
  {
    if a != 0 && b != 0 {
      AndLe(a / 2, b / 2);
    }
  }

  /** Two naturals with the same bits are equal. */
  lemma {:induction false} BitsEqual(a: nat, b: nat)
    requires forall k: nat :: BitOf(a, k) == BitOf(b, k)
    ensures a == b
    decreases a + b
  {
    if a != 0 || b != 0 {
      assert BitOf(a, 0) == BitOf(b, 0);
      forall k: nat
        ensures BitOf(a / 2, k) == BitOf(b / 2, k)
      {
        assert BitOf(a, k + 1) == BitOf(b, k + 1);
      }
      BitsEqual(a / 2, b / 2);
    }
  }

  lemma SmallBits(n: nat, k: nat)
    requires n < 8 && k >= 3
    ensures !BitOf(n, k)
  {
    assert BitOf(n, k) == BitOf(n / 2 / 2 / 2, k - 3);
    ZeroBits(k - 3);
  }

  /** The bits of 0007 are bits 0, 1 and 2. */
  lemma Bit7(k: nat)
    ensures BitOf(7, k) == (k < 3)
  {
    if k == 1 {
      assert BitOf(7, 1) == BitOf(3, 0);
    } else if k == 2 {
      assert BitOf(7, 2) == BitOf(1, 0);
    } else if k >= 3 {
      SmallBits(7, k);
    }
  }

  /** Bit `k` of `x & m & 0007`. */
  lemma MaskBit(x: nat, m: nat, k: nat)
    ensures BitOf(And(And(x, m), 7), k) == (BitOf(x, k) && BitOf(m, k) && k < 3)
  {
    AndBit(And(x, m), 7, k);
    AndBit(x, m, k);
    Bit7(k);
  }

  /** Each of the low three bits set in `m` is set in `x`. */
  predicate Covers(x: nat, m: nat)
  {
    forall k :: 0 <= k < 3 && BitOf(m, k) ==> BitOf(x, k)
  }

  /** `(x & m & 0007) == m` says that `m` is one of 0..7 and each of its bits is set in `x`. */
  lemma MaskCovered(x: nat, m: nat)
    ensures And(And(x, m), 7) == m <==> m < 8 && Covers(x, m)
  {
    var r := And(And(x, m), 7);
    AndLe(And(x, m), 7);
    if r == m {
      forall k | 0 <= k < 3 && BitOf(m, k)
        ensures BitOf(x, k)
      {
        MaskBit(x, m, k);
      }
    }
    if m < 8 && Covers(x, m) {
      forall k: nat
        ensures BitOf(r, k) == BitOf(m, k)
      {
        MaskBit(x, m, k);
        if k >= 3 {
          SmallBits(m, k);
        }
      }
      BitsEqual(r, m);
    }
  }

  /** The mode bits `permission` tests: the owner's for a matching euid, else the group's for a matching egid, else the others'. */
  function Shifted(i: MInode, euid: int, egid: int): (r: nat)
  {
    if euid == i.d.uid then i.d.mode / 64
    else if egid == i.d.gid then i.d.mode / 8
    else i.d.mode
  }

  /**
   * `permission(inode, mask)` for a caller with `euid`/`egid`: never for
   * an inode of a device that has lost its last link; otherwise when
   * `(mode & mask & 0007) == mask` or the caller is the superuser. A
   * negative mask (ACC_MODE's `'\377'`) never equals the masked bits.
   */
  predicate Permission(i: MInode, euid: int, egid: int, mask: int, suser: bool)
  {
    !(i.dev != 0 && i.d.nlinks == 0) &&
    ((mask >= 0 && And(And(Shifted(i, euid, egid), mask), 7) == mask) || suser)
  }

  /** `permission` grants a linked inode exactly the masks whose bits the chosen class has, and everything to the superuser. */
  lemma PermissionBits(i: MInode, euid: int, egid: int, mask: int, suser: bool)
    ensures Permission(i, euid, egid, mask, suser) <==>
            !(i.dev != 0 && i.d.nlinks == 0) &&
            (suser || (0 <= mask < 8 && Covers(Shifted(i, euid, egid), mask)))
  {
    if mask >= 0 {
      MaskCovered(Shifted(i, euid, egid), mask);
    }
  }

  // ---------------------------------------------------------------------
  // match()
  // ---------------------------------------------------------------------

  /** The bytes of a stored name before its first NUL. */
  function StoredName(n: seq<byte>): (s: seq<byte>)
    ensures |s| <= |n| && s == n[..|s|] && forall j :: 0 <= j < |s| ==> s[j] != 0
    ensures |s| < |n| ==> n[|s|] == 0
  {
    if |n| == 0 || n[0] == 0 then []
    else
      var t := StoredName(n[1..]);
      assert [n[0]] + t == n[..|t| + 1];
      [n[0]] + t
  }

  /**
   * `match(len, name, de)`: a used entry whose name starts with the first
   * `len` bytes of `name` and ends there, with a NUL unless those bytes
   * fill all 14. A length over 14 never matches.
   */
  predicate Match(len: int, name: seq<byte>, de: DirEntry)
    requires de.Valid() && 0 < len <= |name|
  {
    de.ino != 0 && len <= NAME_LEN && (len < NAME_LEN ==> de.name[len] == 0) && de.name[..len] == name[..len]
  }

  /** For a name without NUL bytes, `match` is equality with the stored name. */
  lemma MatchIsStoredName(len: int, name: seq<byte>, de: DirEntry)
    requires de.Valid() && 0 < len <= |name| && len <= NAME_LEN
    requires forall j :: 0 <= j < len ==> name[j] != 0
    ensures Match(len, name, de) <==> de.ino != 0 && StoredName(de.name) == name[..len]
  {
    var s := StoredName(de.name);
    if Match(len, name, de) {
      forall j | 0 <= j < len
        ensures de.name[j] != 0
      {
        assert de.name[..len][j] == name[..len][j];
      }
      assert |s| == len;
    }
    if de.ino != 0 && s == name[..len] {
      assert de.name[..len] == s;
    }
  }

  // ---------------------------------------------------------------------
  // Directory blocks
  // ---------------------------------------------------------------------

  /** Slot `k` of a directory block. */
  function EntryIn(data: seq<byte>, k: nat): (e: DirEntry)
    requires |data| == BLOCK_SIZE && k < DIR_ENTRIES_PER_BLOCK
    ensures e.Valid()
  {
    DecodeDirEntry(data[k * 16..k * 16 + 16])
  }

  /** The block with slot `k` overwritten by entry `e`. */
  function PutEntry(data: seq<byte>, k: nat, e: DirEntry): (r: seq<byte>)
    requires |data| == BLOCK_SIZE && k < DIR_ENTRIES_PER_BLOCK && e.Valid()
    ensures |r| == BLOCK_SIZE
  {
    Splice(data, k * 16, EncodeDirEntry(e))
  }

  /** Writing slot `k` gives back `e` there and leaves every other slot as it was. */
  lemma PutEntryReads(data: seq<byte>, k: nat, e: DirEntry, m: nat)
    requires |data| == BLOCK_SIZE && k < DIR_ENTRIES_PER_BLOCK && m < DIR_ENTRIES_PER_BLOCK && e.Valid()
    ensures EntryIn(PutEntry(data, k, e), m) == if m == k then e else EntryIn(data, m)
  {
    var r := PutEntry(data, k, e);
    if m == k {
      DirEntryRoundTrip(e);
    } else {
      assert m * 16 + 16 <= k * 16 || k * 16 + 16 <= m * 16;
      assert r[m * 16..m * 16 + 16] == data[m * 16..m * 16 + 16];
    }
  }

  /** Slot `j` is unused: both bytes of its inode number are 0. */
  predicate FreeAt(data: seq<byte>, j: nat)
    requires |data| == BLOCK_SIZE && j < DIR_ENTRIES_PER_BLOCK
  {
    data[j * 16] == 0 && data[j * 16 + 1] == 0
  }

  lemma FreeAtIff(data: seq<byte>, j: nat)
    requires |data| == BLOCK_SIZE && j < DIR_ENTRIES_PER_BLOCK
    ensures FreeAt(data, j) <==> EntryIn(data, j).ino == 0
  {
  }

  /** `match(len, name, de)` for the entry in slot `j`. */
  predicate MatchAt(data: seq<byte>, j: nat, len: int, name: seq<byte>)
    requires |data| == BLOCK_SIZE && j < DIR_ENTRIES_PER_BLOCK && 0 < len <= |name|
  {
    Match(len, name, EntryIn(data, j))
  }

  /** What a scan meets at a block of a directory: no zone, a zone `bread` cannot read, or the block's bytes. */
  datatype View = NoZone | Unread | Read(data: seq<byte>)

  /** The block was read and holds a whole block of entries. */
  predicate Readable(v: View)
  {
    v.Read? && |v.data| == BLOCK_SIZE
  }

  /** What `bread(dev, z)` gives for zone `z`. */
  function ZoneView(dev: int, z: int, blocks: map<(int, int), Block>): (v: View)
    requires BlocksOk(blocks)
    ensures v == NoZone <==> z == 0
    ensures v.Read? ==> (dev, z) in blocks && Readable(v) && v.data == blocks[(dev, z)].data
  {
    if z == 0 then NoZone else if (dev, z) in blocks then Read(blocks[(dev, z)].data) else Unread
  }

  /** The zone of block `n` of directory `i`, as `bmap` gives it. */
  function DirZone(i: MInode, blocks: map<(int, int), Block>, n: nat): (r: u16)
    requires i.Valid() && BlocksOk(blocks) && n < MAX_FILE_BLOCKS
  {
    Lookup(i.d.zone, blocks, i.dev, n)
  }

  /** `bread(dev, bmap(dir, n))`: what a scan meets at block `n` of directory `i`. */
  function DirBlock(i: MInode, blocks: map<(int, int), Block>, n: nat): (r: View)
    requires i.Valid() && BlocksOk(blocks)
  {
    if n < MAX_FILE_BLOCKS then ZoneView(i.dev, DirZone(i, blocks, n) as int, blocks) else NoZone
  }

  /** The blocks of directory `i` as the scans of `find_entry` and `is_empty_dir` meet them. */
  function DirView(i: MInode, blocks: map<(int, int), Block>): (r: nat -> View)
    requires i.Valid() && BlocksOk(blocks)
  {
    (n: nat) => DirBlock(i, blocks, n)
  }

  /** `view` gives the blocks of directory `i`. */
  ghost predicate ViewOf(view: nat -> View, i: MInode, blocks: map<(int, int), Block>)
    requires i.Valid() && BlocksOk(blocks)
  {
    forall n: nat {:trigger DirBlock(i, blocks, n)} :: view(n) == DirBlock(i, blocks, n)
  }

  lemma DirViewOf(i: MInode, blocks: map<(int, int), Block>)
    requires i.Valid() && BlocksOk(blocks)
    ensures ViewOf(DirView(i, blocks), i, blocks)
  {
  }

  /** `bmap` then `bread` for block `n` of the directory, which `view` gives. */
  method ReadDirBlock(i: MInode, blocks: map<(int, int), Block>, n: nat, ghost view: nat -> View) returns (v: View)
    requires i.Valid() && BlocksOk(blocks) && n < MAX_FILE_BLOCKS && ViewOf(view, i, blocks)
    ensures v == view(n) && (v.Read? ==> |v.data| == BLOCK_SIZE)
  {
    assert view(n) == DirBlock(i, blocks, n);
    var z := Lookup(i.d.zone, blocks, i.dev, n);
    if z == 0 {
      v := NoZone;
    } else if (i.dev, z as int) in blocks {
      v := Read(blocks[(i.dev, z as int)].data);
    } else {
      v := Unread;
    }
  }

  /** A directory size whose entries `bmap` can all map. */
  predicate SizeOk(i: MInode)
  {
    i.d.size <= MAX_FILE_BLOCKS * BLOCK_SIZE
  }

  lemma EntriesFit(i: MInode, k: nat)
    requires SizeOk(i) && k < i.d.size / 16
    ensures k / 64 < MAX_FILE_BLOCKS
  {
  }

  /** The first entry of the block after the block of entry `k`. */
  function NextBlock(k: nat): (r: nat)
  {
    (k / 64 + 1) * 64
  }

  /** The entries from `k` up to `NextBlock(k)` share the block of `k`. */
  lemma SameBlock(k: nat)
    ensures k < NextBlock(k) && (k % 64 == 0 ==> NextBlock(k) == k + 64)
    ensures forall m :: k <= m < NextBlock(k) ==> m / 64 == k / 64
  {
  }

  /** Entry `k` is entry `off` of block `blk`. */
  lemma EntryAt(k: nat, blk: nat, off: nat)
    requires k == 64 * blk + off && off < 64
    ensures k / 64 == blk && k % 64 == off
  {
  }

  // ---------------------------------------------------------------------
  // find_entry(): the scan
  // ---------------------------------------------------------------------

  /** Entry `m` is in a block that was read and matches. */
  predicate Hit(view: nat -> View, len: int, name: seq<byte>, m: nat)
    requires 0 < len <= |name|
  {
    Readable(view(m / 64)) && MatchAt(view(m / 64).data, m % 64, len, name)
  }

  /**
   * From entry `k` on, the first of the `n` entries that matches; blocks
   * that cannot be read are skipped. The source's next loop test after
   * such a block reads `bh->b_data` through NULL; that read is not modelled.
   */
  function FindFrom(view: nat -> View, len: int, name: seq<byte>, k: nat, n: nat): (r: int)
    requires 0 < len <= |name|
    ensures r == NONE || k <= r < n
    decreases n - k
  {
    if k >= n then NONE
    else if !Readable(view(k / 64)) then FindFrom(view, len, name, NextBlock(k), n)
    else if MatchAt(view(k / 64).data, k % 64, len, name) then k
    else FindFrom(view, len, name, k + 1, n)
  }

  /** `r` is the first hit among entries `k` to `n`, or NONE when there is none. */
  ghost predicate FirstHit(view: nat -> View, len: int, name: seq<byte>, k: nat, n: nat, r: int)
    requires 0 < len <= |name|
  {
    (r == NONE <==> forall m :: k <= m < n ==> !Hit(view, len, name, m)) &&
    (r != NONE ==> 0 <= r && Hit(view, len, name, r) && forall m :: k <= m < r ==> !Hit(view, len, name, m))
  }

  /** A block that cannot be read holds no hit, so the first hit after it is the first from `k`. */
  lemma SkipFirst(view: nat -> View, len: int, name: seq<byte>, k: nat, n: nat, r: int)
    requires 0 < len <= |name| && k < n && !Readable(view(k / 64))
    requires (r == NONE || NextBlock(k) <= r) && FirstHit(view, len, name, NextBlock(k), n, r)
    ensures FirstHit(view, len, name, k, n, r)
  {
    SameBlock(k);
    forall m | k <= m < NextBlock(k)
      ensures !Hit(view, len, name, m)
    {
      assert m / 64 == k / 64;
    }
  }

  /** An entry that is no hit leaves the first hit after it the first from `k`. */
  lemma StepFirst(view: nat -> View, len: int, name: seq<byte>, k: nat, n: nat, r: int)
    requires 0 < len <= |name| && k < n && !Hit(view, len, name, k)
    requires (r == NONE || k + 1 <= r) && FirstHit(view, len, name, k + 1, n, r)
    ensures FirstHit(view, len, name, k, n, r)
  {
  }

  /** `FindFrom` gives the first hit from `k` on, and NONE exactly when there is none. */
  lemma {:induction false} FindFromFirst(view: nat -> View, len: int, name: seq<byte>, k: nat, n: nat)
    requires 0 < len <= |name|
    ensures FirstHit(view, len, name, k, n, FindFrom(view, len, name, k, n))
    decreases n - k
  {
    if k < n {
      if !Readable(view(k / 64)) {
        FindFromFirst(view, len, name, NextBlock(k), n);
        SkipFirst(view, len, name, k, n, FindFrom(view, len, name, NextBlock(k), n));
      } else if !Hit(view, len, name, k) {
        FindFromFirst(view, len, name, k + 1, n);
        StepFirst(view, len, name, k, n, FindFrom(view, len, name, k + 1, n));
      }
    }
  }

  lemma SkipNoHit(view: nat -> View, len: int, name: seq<byte>, k: nat)
    requires 0 < len <= |name| && k % 64 == 0 && !Readable(view(k / 64))
    ensures forall m :: k <= m < k + 64 ==> !Hit(view, len, name, m)
  {
    SameBlock(k);
  }

  /**
   * What the scan of `find_entry` finds in directory `i`: nothing when its
   * first zone is 0 or cannot be read, else the first matching entry
   * among the `i_size / 16`.
   */
  function Found(i: MInode, blocks: map<(int, int), Block>, len: int, name: seq<byte>): (r: int)
    requires i.Valid() && BlocksOk(blocks) && 0 < len <= |name|
  {
    var view := DirView(i, blocks);
    if !Readable(view(0)) then NONE else FindFrom(view, len, name, 0, i.d.size / 16)
  }

  /** `Found` is the first matching entry of a directory whose first block can be read, and NONE exactly when none matches. */
  lemma FoundFirst(i: MInode, blocks: map<(int, int), Block>, len: int, name: seq<byte>)
    requires i.Valid() && BlocksOk(blocks) && 0 < len <= |name|
    ensures var r, view := Found(i, blocks, len, name), DirView(i, blocks);
            (r == NONE <==> !Readable(view(0)) || forall m :: 0 <= m < i.d.size / 16 ==> !Hit(view, len, name, m)) &&
            (r != NONE ==> 0 <= r < i.d.size / 16 && Hit(view, len, name, r) &&
                           forall m :: 0 <= m < r ==> !Hit(view, len, name, m))
  {
    FindFromFirst(DirView(i, blocks), len, name, 0, i.d.size / 16);
  }

  /** The loop of `find_entry` over the blocks `view` gives: entry by entry, reading each block at its first entry. */
  method ScanEntries(i: MInode, blocks: map<(int, int), Block>, len: int, name: seq<byte>, ghost view: nat -> View)
    returns (r: int)
    requires i.Valid() && BlocksOk(blocks) && SizeOk(i) && 0 < len <= |name| && ViewOf(view, i, blocks)
    ensures r == NONE <==> !Readable(view(0)) || forall m :: 0 <= m < i.d.size / 16 ==> !Hit(view, len, name, m)
    ensures r != NONE ==> 0 <= r < i.d.size / 16 && Hit(view, len, name, r) &&
                          forall m :: 0 <= m < r ==> !Hit(view, len, name, m)
  {
    var v := ReadDirBlock(i, blocks, 0, view);
    if !v.Read? {
      return NONE;
    }
    var n := i.d.size / 16;
    var data := v.data;
    var k, blk, off := 0, 0, 0;
    while k < n
      invariant k == 64 * blk + off && 0 <= off <= 64
      invariant forall m :: 0 <= m < k && m < n ==> !Hit(view, len, name, m)
      invariant off < 64 ==> view(blk) == Read(data) && |data| == BLOCK_SIZE
      decreases n - k
    {
      if off == 64 {
        blk := blk + 1;
        EntryAt(k, blk, 0);
        EntriesFit(i, k);
        v := ReadDirBlock(i, blocks, blk, view);
        if !v.Read? {
          SkipNoHit(view, len, name, k);
          k := k + 64;
          continue;
        }
        data, off := v.data, 0;
      }
      EntryAt(k, blk, off);
      if MatchAt(data, off, len, name) {
        assert Hit(view, len, name, k);
        return k;
      }
      k, off := k + 1, off + 1;
    }
    return NONE;
  }

  /** The scan of `find_entry` (fs/namei.c:244-278) in directory `i`. */
  method FindEntry(i: MInode, blocks: map<(int, int), Block>, len: int, name: seq<byte>) returns (r: int)
    requires i.Valid() && BlocksOk(blocks) && SizeOk(i) && 0 < len <= |name|
    ensures r == Found(i, blocks, len, name)
  {
    DirViewOf(i, blocks);
    FoundFirst(i, blocks, len, name);
    r := ScanEntries(i, blocks, len, name, DirView(i, blocks));
  }

  // ---------------------------------------------------------------------
  // is_empty_dir()
  // ---------------------------------------------------------------------

  /** Entry `m` is in a block without a zone, or in a block that was read and unused. */
  predicate Vacant(view: nat -> View, m: nat)
  {
    view(m / 64) == NoZone || (Readable(view(m / 64)) && FreeAt(view(m / 64).data, m % 64))
  }

  /** From entry `k` on, the `n` entries are unused, blocks without a zone skipped; a block that cannot be read answers false. */
  function EmptyFrom(view: nat -> View, k: nat, n: nat): (r: bool)
    decreases n - k
  {
    if k >= n then true
    else if view(k / 64) == NoZone then EmptyFrom(view, NextBlock(k), n)
    else if !Readable(view(k / 64)) then false
    else if !FreeAt(view(k / 64).data, k % 64) then false
    else EmptyFrom(view, k + 1, n)
  }

  lemma {:induction false} EmptyFromAll(view: nat -> View, k: nat, n: nat)
    ensures EmptyFrom(view, k, n) <==> forall m :: k <= m < n ==> Vacant(view, m)
    decreases n - k
  {
    if k < n {
      if view(k / 64) == NoZone {
        var k' := NextBlock(k);
        EmptyFromAll(view, k', n);
        SameBlock(k);
        forall m | k <= m < k'
          ensures Vacant(view, m)
        {
          assert m / 64 == k / 64;
        }
      } else if Readable(view(k / 64)) && FreeAt(view(k / 64).data, k % 64) {
        EmptyFromAll(view, k + 1, n);
      } else {
        assert !Vacant(view, k);
      }
    }
  }

  lemma SkipVacant(view: nat -> View, k: nat)
    requires k % 64 == 0 && view(k / 64) == NoZone
    ensures forall m :: k <= m < k + 64 ==> Vacant(view, m)
  {
    SameBlock(k);
  }

  /** The name `"."` as `strcmp` sees it in a 14-byte field. */
  predicate IsDot(n: seq<byte>)
    requires |n| == NAME_LEN
  {
    n[0] == 46 && n[1] == 0
  }

  /** The name `".."`. */
  predicate IsDotDot(n: seq<byte>)
    requires |n| == NAME_LEN
  {
    n[0] == 46 && n[1] == 46 && n[2] == 0
  }

  /** The first two entries of block `v` are `.` naming inode `num` and `..` naming some inode. */
  predicate Header(v: View, num: int)
    requires Readable(v)
  {
    var dot, dotdot := EntryIn(v.data, 0), EntryIn(v.data, 1);
    dot.ino == num && dotdot.ino != 0 && IsDot(dot.name) && IsDotDot(dotdot.name)
  }

  /**
   * What `is_empty_dir` answers, with a block without a zone skipped and
   * its buffer released once: at least two entries, the first block
   * read with the `.`/`..` header, and every later entry unused.
   */
  predicate IsEmpty(i: MInode, blocks: map<(int, int), Block>)
    requires i.Valid() && BlocksOk(blocks)
  {
    var view := DirView(i, blocks);
    i.d.size / 16 >= 2 && Readable(view(0)) && Header(view(0), i.num) && EmptyFrom(view, 2, i.d.size / 16)
  }

  /** `rmdir` sees an empty directory exactly when the header is right and every later entry is vacant. */
  lemma IsEmptyIff(i: MInode, blocks: map<(int, int), Block>)
    requires i.Valid() && BlocksOk(blocks)
    ensures var view := DirView(i, blocks);
            IsEmpty(i, blocks) <==>
            i.d.size / 16 >= 2 && Readable(view(0)) && Header(view(0), i.num) &&
            forall m :: 2 <= m < i.d.size / 16 ==> Vacant(view, m)
  {
    EmptyFromAll(DirView(i, blocks), 2, i.d.size / 16);
  }

  /** The loop of `is_empty_dir` over the blocks `view` gives, each block without a zone skipped once. */
  method EmptyScan(i: MInode, blocks: map<(int, int), Block>, ghost view: nat -> View) returns (empty: bool)
    requires i.Valid() && BlocksOk(blocks) && SizeOk(i) && ViewOf(view, i, blocks)
    ensures empty <==> i.d.size / 16 >= 2 && Readable(view(0)) && Header(view(0), i.num) &&
                       forall m :: 2 <= m < i.d.size / 16 ==> Vacant(view, m)
  {
    var n := i.d.size / 16;
    if n < 2 {
      return false;
    }
    var v := ReadDirBlock(i, blocks, 0, view);
    if !v.Read? {
      return false;
    }
    var data := v.data;
    var dot, dotdot := EntryIn(data, 0), EntryIn(data, 1);
    if dot.ino != i.num || dotdot.ino == 0 || !IsDot(dot.name) || !IsDotDot(dotdot.name) {
      return false;
    }
    var k, blk, off := 2, 0, 2;
    while k < n
      invariant k == 64 * blk + off && 0 <= off <= 64 && 2 <= k
      invariant forall m :: 2 <= m < k && m < n ==> Vacant(view, m)
      invariant off < 64 ==> view(blk) == Read(data) && |data| == BLOCK_SIZE
      decreases n - k
    {
      if off == 64 {
        blk := blk + 1;
        EntryAt(k, blk, 0);
        EntriesFit(i, k);
        v := ReadDirBlock(i, blocks, blk, view);
        if v == NoZone {
          SkipVacant(view, k);
          k := k + 64;
          continue;
        }
        if !v.Read? {
          assert !Vacant(view, k);
          return false;
        }
        data, off := v.data, 0;
      }
      EntryAt(k, blk, off);
      if !FreeAt(data, off) {
        assert !Vacant(view, k);
        return false;
      }
      k, off := k + 1, off + 1;
    }
    return true;
  }

  /** `is_empty_dir` (fs/namei.c:375-426) on directory `i`, each block without a zone skipped once. */
  method IsEmptyDir(i: MInode, blocks: map<(int, int), Block>) returns (empty: bool)
    requires i.Valid() && BlocksOk(blocks) && SizeOk(i)
    ensures empty == IsEmpty(i, blocks)
  {
    DirViewOf(i, blocks);
    IsEmptyIff(i, blocks);
    empty := EmptyScan(i, blocks, DirView(i, blocks));
  }

  /** How `is_empty_dir` as written ends: with an answer, or by releasing one buffer a second time. */
  datatype Verdict = Answer(empty: bool) | ReleasedTwice

  /**
   * The loop of `is_empty_dir` as written (fs/namei.c:403-425). A block
   * without a zone is skipped after the previous block's buffer is
   * released, but `bh` keeps pointing at that released buffer (`stale`):
   * the next block start, or the `brelse` after the loop, releases it
   * again.
   */
  function EmptyAsWritten(view: nat -> View, k: nat, n: nat, stale: bool): (r: Verdict)
    decreases n - k
  {
    if k >= n then (if stale then ReleasedTwice else Answer(true))
    else if k % 64 == 0 && stale then ReleasedTwice
    else if view(k / 64) == NoZone then EmptyAsWritten(view, NextBlock(k), n, true)
    else if !Readable(view(k / 64)) then Answer(false)
    else if !FreeAt(view(k / 64).data, k % 64) then Answer(false)
    else EmptyAsWritten(view, k + 1, n, false)
  }

  /** Without a block lacking its zone, the loop as written answers what `EmptyFrom` does. */
  lemma {:induction false} AsWrittenWithoutHoles(view: nat -> View, k: nat, n: nat)
    requires forall m :: k <= m < n ==> view(m / 64) != NoZone
    ensures EmptyAsWritten(view, k, n, false) == Answer(EmptyFrom(view, k, n))
    decreases n - k
  {
    if k < n && Readable(view(k / 64)) && FreeAt(view(k / 64).data, k % 64) {
      AsWrittenWithoutHoles(view, k + 1, n);
    }
  }

  /** The unused rest of a first block brings both loops to the second block. */
  lemma {:induction false} AsWrittenFirstBlock(view: nat -> View, k: nat, n: nat)
    requires 64 <= n && k <= 64 && Readable(view(0))
    requires forall m :: k <= m < 64 ==> FreeAt(view(0).data, m)
    ensures EmptyAsWritten(view, k, n, false) == EmptyAsWritten(view, 64, n, false)
    ensures EmptyFrom(view, k, n) == EmptyFrom(view, 64, n)
    decreases 64 - k
  {
    if k < 64 {
      assert k / 64 == 0 && k % 64 == k;
      AsWrittenFirstBlock(view, k + 1, n);
    }
  }

  /**
   * A directory of two blocks, whose second block has no zone and whose
   * first block holds only its `.`/`..` header, is empty; yet the loop as
   * written releases the first block's buffer twice.
   */
  lemma HoleReleasedTwice(i: MInode, blocks: map<(int, int), Block>)
    requires i.Valid() && BlocksOk(blocks) && i.d.size == 2 * BLOCK_SIZE
    requires Readable(DirBlock(i, blocks, 0)) && Header(DirBlock(i, blocks, 0), i.num)
    requires DirBlock(i, blocks, 1) == NoZone
    requires forall m :: 2 <= m < 64 ==> FreeAt(DirBlock(i, blocks, 0).data, m)
    ensures IsEmpty(i, blocks)
    ensures EmptyAsWritten(DirView(i, blocks), 2, i.d.size / 16, false) == ReleasedTwice
  {
    var view := DirView(i, blocks);
    assert view(0) == DirBlock(i, blocks, 0) && view(1) == DirBlock(i, blocks, 1);
    HoleAfterFirst(view, i.d.size / 16);
  }

  /** Two blocks, the second without a zone, the first unused past its header: both loops run past the hole. */
  lemma HoleAfterFirst(view: nat -> View, n: nat)
    requires n == 128 && Readable(view(0)) && view(1) == NoZone
    requires forall m :: 2 <= m < 64 ==> FreeAt(view(0).data, m)
    ensures EmptyFrom(view, 2, n)
    ensures EmptyAsWritten(view, 2, n, false) == ReleasedTwice
  {
    AsWrittenFirstBlock(view, 2, n);
    assert 64 / 64 == 1 && NextBlock(64) == n;
    assert EmptyAsWritten(view, 64, n, false) == EmptyAsWritten(view, n, n, true);
    assert EmptyFrom(view, 64, n) == EmptyFrom(view, n, n);
  }

  // ---------------------------------------------------------------------
  // add_entry_safely()
  // ---------------------------------------------------------------------

  /**
   * Block `n` of directory `i` as `add_entry_safely` meets it: block 0 at
   * `i_zone[0]`, each later one at the zone `create_block` answers
   * (`zoneOf`).
   */
  function AddBlock(i: MInode, blocks: map<(int, int), Block>, zoneOf: nat -> int, n: nat): (r: View)
    requires i.Valid() && BlocksOk(blocks)
  {
    ZoneView(i.dev, if n == 0 then i.d.zone[0] as int else zoneOf(n), blocks)
  }

  function AddView(i: MInode, blocks: map<(int, int), Block>, zoneOf: nat -> int): (r: nat -> View)
    requires i.Valid() && BlocksOk(blocks)
  {
    (n: nat) => AddBlock(i, blocks, zoneOf, n)
  }

  ghost predicate AddViewOf(view: nat -> View, i: MInode, blocks: map<(int, int), Block>, zoneOf: nat -> int)
    requires i.Valid() && BlocksOk(blocks)
  {
    forall n: nat {:trigger AddBlock(i, blocks, zoneOf, n)} :: view(n) == AddBlock(i, blocks, zoneOf, n)
  }

  /** `bread` of block `n`: of `i_zone[0]` for the first, of what `create_block` answers after. */
  method ReadAddBlock(i: MInode, blocks: map<(int, int), Block>, zoneOf: nat -> int, n: nat, ghost view: nat -> View)
    returns (v: View)
    requires i.Valid() && BlocksOk(blocks) && AddViewOf(view, i, blocks, zoneOf)
    ensures v == view(n) && (v.Read? ==> |v.data| == BLOCK_SIZE)
  {
    assert view(n) == AddBlock(i, blocks, zoneOf, n);
    var z := if n == 0 then i.d.zone[0] as int else zoneOf(n);
    if z == 0 {
      v := NoZone;
    } else if (i.dev, z) in blocks {
      v := Read(blocks[(i.dev, z)].data);
    } else {
      v := Unread;
    }
  }

  /** The entry `add_entry_safely` claims (NONE if none) and the directory size it leaves. */
  datatype Added = Added(k: int, size: int)

  /**
   * From entry `k` on: a block without a zone ends the scan, one that
   * cannot be read is skipped, and each entry visited at or past the size
   * extends the size to cover it; the first unused entry visited is
   * claimed. After an unreadable block the source's loop test reads
   * `bh->b_data` through NULL; that read is not modelled.
   */
  function AddFrom(view: nat -> View, k: nat, max: nat, size: int): (a: Added)
    ensures a.k == NONE || k <= a.k < max
    decreases max - k
  {
    if k >= max || view(k / 64) == NoZone then Added(NONE, size)
    else if !Readable(view(k / 64)) then AddFrom(view, NextBlock(k), max, size)
    else
      var size' := if k * 16 >= size then (k + 1) * 16 else size;
      if FreeAt(view(k / 64).data, k % 64) then Added(k, size')
      else AddFrom(view, k + 1, max, size')
  }

  /** The entry is in a block that was read, and in use. */
  predicate Taken(view: nat -> View, m: nat)
  {
    Readable(view(m / 64)) && !FreeAt(view(m / 64).data, m % 64)
  }

  /**
   * The claimed entry is the first unused one: its block was read, it is
   * unused, every entry before it in a block that was read is in use, and
   * the size becomes exactly its end when it lay at or past the old size.
   */
  lemma {:induction false} AddFromFirst(view: nat -> View, k: nat, max: nat, size: int)
    ensures var a := AddFrom(view, k, max, size);
            a.size >= size &&
            (a.k != NONE ==>
               Readable(view(a.k / 64)) && !Taken(view, a.k) &&
               (forall m :: k <= m < a.k && Readable(view(m / 64)) ==> Taken(view, m)) &&
               a.size == if a.k * 16 >= size then (a.k + 1) * 16 else size)
    decreases max - k
  {
    if k < max && view(k / 64) != NoZone {
      if !Readable(view(k / 64)) {
        var k' := NextBlock(k);
        AddFromFirst(view, k', max, size);
        SameBlock(k);
        forall m | k <= m < k'
          ensures !Readable(view(m / 64))
        {
          assert m / 64 == k / 64;
        }
      } else if Taken(view, k) {
        var size' := if k * 16 >= size then (k + 1) * 16 else size;
        AddFromFirst(view, k + 1, max, size');
      }
    }
  }

  /** The 14 name bytes `add_entry_safely` stores: the first `len` bytes of `name`, then NULs. */
  function Padded(name: seq<byte>, len: nat): (n: seq<byte>)
    requires len <= NAME_LEN && len <= |name|
    ensures |n| == NAME_LEN && n[..len] == name[..len] && forall j :: len <= j < NAME_LEN ==> n[j] == 0
  {
    name[..len] + Zeros(NAME_LEN - len)
  }

  /** The entry written for a used inode number matches the name it was written for. */
  lemma PaddedMatches(name: seq<byte>, len: nat, ino: u16)
    requires 0 < len <= NAME_LEN && len <= |name| && ino != 0
    ensures Match(len, name, DirEntry(ino, Padded(name, len)))
  {
  }

  /** `namelen` cut to NAME_LEN, as `add_entry_safely` and `find_entry` do. */
  function NameLen(namelen: int): (len: int)
    ensures len <= NAME_LEN && (namelen <= NAME_LEN ==> len == namelen) && (namelen > NAME_LEN ==> len == NAME_LEN)
  {
    if namelen > NAME_LEN then NAME_LEN else namelen
  }

  /** The entry `add_entry_safely` (fs/namei.c:118-195) claims and the size it leaves, given `create_block`'s answers. */
  function AddSpec(i: MInode, blocks: map<(int, int), Block>, namelen: int, zoneOf: nat -> int, max: nat): (r: Added)
    requires i.Valid() && BlocksOk(blocks)
  {
    var view := AddView(i, blocks, zoneOf);
    if NameLen(namelen) <= 0 || !Readable(view(0)) then Added(NONE, i.d.size)
    else AddFrom(view, 0, max, i.d.size)
  }

  /** The loop of `add_entry_safely` over the blocks `view` gives: the entry it claims and the size it leaves. */
  method AddScan(i: MInode, blocks: map<(int, int), Block>, zoneOf: nat -> int, max: nat, ghost view: nat -> View)
    returns (a: Added)
    requires i.Valid() && BlocksOk(blocks) && AddViewOf(view, i, blocks, zoneOf) && Readable(view(0))
    ensures a == AddFrom(view, 0, max, i.d.size)
  {
    var v := ReadAddBlock(i, blocks, zoneOf, 0, view);
    var data := v.data;
    var size: int := i.d.size;
    var k, blk, off := 0, 0, 0;
    while k < max
      invariant k == 64 * blk + off && 0 <= off <= 64
      invariant AddFrom(view, 0, max, i.d.size) == AddFrom(view, k, max, size)
      invariant off < 64 ==> view(blk) == Read(data) && |data| == BLOCK_SIZE
      decreases max - k
    {
      if off == 64 {
        blk := blk + 1;
        EntryAt(k, blk, 0);
        v := ReadAddBlock(i, blocks, zoneOf, blk, view);
        if v == NoZone {
          return Added(NONE, size);
        }
        if !v.Read? {
          k := k + 64;
          continue;
        }
        data, off := v.data, 0;
      }
      EntryAt(k, blk, off);
      if k * 16 >= size {
        size := (k + 1) * 16;
      }
      if FreeAt(data, off) {
        return Added(k, size);
      }
      k, off := k + 1, off + 1;
    }
    return Added(NONE, size);
  }

  /** The zone of block `n` as `add_entry_safely` meets it: `i_zone[0]` for the first, `create_block`'s answer after. */
  function AddZone(i: MInode, zoneOf: nat -> int, n: nat): (r: int)
    requires i.Valid()
  {
    if n == 0 then i.d.zone[0] as int else zoneOf(n)
  }

  /**
   * The entry `AddSpec` claims is unused, in a cached block with a zone,
   * the name is not empty, and the size it leaves is at least the old one
   * and fits the 32-bit `i_size`.
   */
  lemma AddSpecAt(i: MInode, blocks: map<(int, int), Block>, namelen: int, zoneOf: nat -> int, max: nat)
    requires i.Valid() && BlocksOk(blocks) && max <= MAX_ENTRIES
    ensures var a := AddSpec(i, blocks, namelen, zoneOf, max);
            i.d.size <= a.size < 0x1_0000_0000 &&
            (a.k != NONE ==>
               0 < NameLen(namelen) && 0 <= a.k < max && AddZone(i, zoneOf, a.k / 64) != 0 &&
               (i.dev, AddZone(i, zoneOf, a.k / 64)) in blocks &&
               EntryIn(blocks[(i.dev, AddZone(i, zoneOf, a.k / 64))].data, a.k % 64).ino == 0)
  {
    var view := AddView(i, blocks, zoneOf);
    if NameLen(namelen) > 0 && Readable(view(0)) {
      AddFromFirst(view, 0, max, i.d.size);
      AddBound(view, 0, max, i.d.size);
      var a := AddFrom(view, 0, max, i.d.size);
      if a.k != NONE {
        assert view(a.k / 64) == AddBlock(i, blocks, zoneOf, a.k / 64);
        FreeAtIff(blocks[(i.dev, AddZone(i, zoneOf, a.k / 64))].data, a.k % 64);
      }
    }
  }

  /** What `add_entry_safely` leaves: the entry claimed (NONE if none), the directory and the blocks. */
  datatype Insertion = Insertion(k: int, dir: MInode, blocks: map<(int, int), Block>)

  /**
   * `add_entry_safely(dir, name, namelen, inr)` at time `now` as a value:
   * only the size, the times and the dirty flag of the directory change,
   * and only the block of the entry claimed.
   */
  function Insert(i: MInode, blocks: map<(int, int), Block>, name: seq<byte>, namelen: int, inr: u16,
                  now: u32, zoneOf: nat -> int, max: nat): (r: Insertion)
    requires i.Valid() && BlocksOk(blocks) && namelen <= |name| && max <= MAX_ENTRIES
    ensures r.dir == i.(d := r.dir.d, ctime := r.dir.ctime, dirt := r.dir.dirt) &&
            r.dir.d == i.d.(size := r.dir.d.size, mtime := r.dir.d.mtime) && r.dir.d.size >= i.d.size
    ensures r.k != NONE ==> r.dir.dirt && r.dir.d.mtime == now
    ensures BlocksOk(r.blocks) && r.blocks.Keys == blocks.Keys
    ensures r.k == NONE ==> r.blocks == blocks
  {
    var a := AddSpec(i, blocks, namelen, zoneOf, max);
    AddSpecAt(i, blocks, namelen, zoneOf, max);
    var i' := i.(d := i.d.(size := a.size, mtime := if a.k != NONE then now else i.d.mtime),
                 ctime := if a.size != i.d.size then now else i.ctime,
                 dirt := i.dirt || a.size != i.d.size || a.k != NONE);
    if a.k == NONE then Insertion(NONE, i', blocks)
    else
      var key := (i.dev, AddZone(i, zoneOf, a.k / 64));
      var b := blocks[key];
      Insertion(a.k, i', blocks[key := b.(data := PutEntry(b.data, a.k % 64, DirEntry(inr, Padded(name, NameLen(namelen)))),
                                          dirt := true)])
  }

  /**
   * The entry claimed was unused and now holds `inr` and the name; for a
   * used inode number it matches the name. Every other slot of its block,
   * and every other block, is as it was.
   */
  lemma InsertReads(i: MInode, blocks: map<(int, int), Block>, name: seq<byte>, namelen: int, inr: u16,
                    now: u32, zoneOf: nat -> int, max: nat, m: nat)
    requires i.Valid() && BlocksOk(blocks) && namelen <= |name| && max <= MAX_ENTRIES && m < DIR_ENTRIES_PER_BLOCK
    ensures var r := Insert(i, blocks, name, namelen, inr, now, zoneOf, max);
            r.k != NONE ==>
              var key := (i.dev, AddZone(i, zoneOf, r.k / 64));
              0 <= r.k < max && key in blocks && r.blocks[key].dirt &&
              EntryIn(blocks[key].data, r.k % 64).ino == 0 &&
              EntryIn(r.blocks[key].data, m) ==
                (if m == r.k % 64 then DirEntry(inr, Padded(name, NameLen(namelen))) else EntryIn(blocks[key].data, m)) &&
              0 < NameLen(namelen) && (inr != 0 ==> MatchAt(r.blocks[key].data, r.k % 64, NameLen(namelen), name)) &&
              forall key' :: key' in blocks && key' != key ==> r.blocks[key'] == blocks[key']
  {
    var r := Insert(i, blocks, name, namelen, inr, now, zoneOf, max);
    AddSpecAt(i, blocks, namelen, zoneOf, max);
    if r.k != NONE {
      var key := (i.dev, AddZone(i, zoneOf, r.k / 64));
      var e := DirEntry(inr, Padded(name, NameLen(namelen)));
      PutEntryReads(blocks[key].data, r.k % 64, e, m);
      if inr != 0 {
        PutEntryReads(blocks[key].data, r.k % 64, e, r.k % 64);
        PaddedMatches(name, NameLen(namelen), inr);
      }
    }
  }

  /** `create_block` answers what `bmap` does: every block the scan of `add_entry_safely` meets is already mapped. */
  ghost predicate Mapped(i: MInode, blocks: map<(int, int), Block>, zoneOf: nat -> int)
    requires i.Valid() && BlocksOk(blocks)
  {
    forall n :: 0 < n < MAX_FILE_BLOCKS ==> zoneOf(n) == DirZone(i, blocks, n) as int
  }

  /** Entry `hi` of the double-indirect block of directory `i`: the zone of a second-level index block. */
  function IndexZone(i: MInode, blocks: map<(int, int), Block>, hi: nat): (r: int)
    requires i.Valid() && BlocksOk(blocks) && hi < NR_INDIRECT
  {
    Entry(blocks, i.dev, i.d.zone[8] as int, hi) as int
  }

  /** Zone `z` holds none of the index blocks of directory `i`. */
  ghost predicate NoIndex(i: MInode, blocks: map<(int, int), Block>, z: int)
    requires i.Valid() && BlocksOk(blocks)
  {
    z != i.d.zone[7] as int && z != i.d.zone[8] as int &&
    forall hi :: 0 <= hi < NR_INDIRECT ==> z != IndexZone(i, blocks, hi)
  }

  /** Storing an entry leaves the size covering it and the entry's block where `bmap` finds it. */
  lemma InsertedSize(i: MInode, blocks: map<(int, int), Block>, name: seq<byte>, namelen: int, inr: u16,
                     now: u32, zoneOf: nat -> int, max: nat)
    requires i.Valid() && BlocksOk(blocks) && namelen <= |name| && max <= MAX_ENTRIES && i.d.size % 16 == 0
    ensures var r := Insert(i, blocks, name, namelen, inr, now, zoneOf, max);
            r.k != NONE ==>
              r.k < r.dir.d.size / 16 && (i.dev, i.d.zone[0] as int) in r.blocks && i.d.zone[0] != 0
  {
    var r := Insert(i, blocks, name, namelen, inr, now, zoneOf, max);
    if r.k != NONE {
      var view := AddView(i, blocks, zoneOf);
      assert Readable(view(0)) && AddSpec(i, blocks, namelen, zoneOf, max) == AddFrom(view, 0, max, i.d.size);
      AddFromFirst(view, 0, max, i.d.size);
    }
  }

  /**
   * The block holding entry `k` of a directory whose blocks are mapped,
   * none of them an index block, is where `find_entry` meets it, once an
   * entry has been stored into it.
   */
  lemma InsertedView(i: MInode, j: MInode, blocks: map<(int, int), Block>, b: map<(int, int), Block>,
                     zoneOf: nat -> int, k: nat)
    requires i.Valid() && j.Valid() && j.d.zone == i.d.zone && j.dev == i.dev
    requires BlocksOk(blocks) && BlocksOk(b) && k < MAX_ENTRIES && Mapped(i, blocks, zoneOf)
    requires forall n :: 0 <= n < MAX_FILE_BLOCKS ==> NoIndex(i, blocks, DirZone(i, blocks, n) as int)
    requires var key := (i.dev, AddZone(i, zoneOf, k / 64));
             AddZone(i, zoneOf, k / 64) != 0 && key in b && b.Keys == blocks.Keys &&
             forall key' :: key' in blocks && key' != key ==> b[key'] == blocks[key']
    ensures DirBlock(j, b, k / 64) == Read(b[(i.dev, AddZone(i, zoneOf, k / 64))].data)
  {
    var n := k / 64;
    var z := AddZone(i, zoneOf, n);
    assert n < MAX_FILE_BLOCKS;
    assert z == DirZone(i, blocks, n) as int;
    assert NoIndex(i, blocks, z);
    if PathOf(n).Double? {
      assert IndexZone(i, blocks, PathOf(n).hi) != z;
    }
    LookupReadsPath(i.d.zone, blocks, b, i.dev, n);
    assert DirZone(j, b, n) as int == z;
  }

  /**
   * Add, then find: once `add_entry_safely` has stored a used inode
   * number under `name` in a directory whose size is a whole number of
   * entries, whose blocks are all mapped and none of whose data zones is
   * also one of its index blocks, `find_entry` finds the name, at the new
   * entry or before it.
   */
  lemma AddThenFind(i: MInode, blocks: map<(int, int), Block>, name: seq<byte>, namelen: int, inr: u16,
                    now: u32, zoneOf: nat -> int, max: nat)
    requires i.Valid() && BlocksOk(blocks) && namelen <= |name| && max <= MAX_ENTRIES && inr != 0
    requires i.d.size % 16 == 0 && Mapped(i, blocks, zoneOf)
    requires forall n :: 0 <= n < MAX_FILE_BLOCKS ==> NoIndex(i, blocks, DirZone(i, blocks, n) as int)
    ensures var r := Insert(i, blocks, name, namelen, inr, now, zoneOf, max);
            r.k != NONE ==>
              0 < NameLen(namelen) && r.dir.Valid() &&
              var f := Found(r.dir, r.blocks, NameLen(namelen), name);
              f != NONE && f <= r.k && Hit(DirView(r.dir, r.blocks), NameLen(namelen), name, f)
  {
    var r := Insert(i, blocks, name, namelen, inr, now, zoneOf, max);
    var len := NameLen(namelen);
    if r.k != NONE {
      InsertReads(i, blocks, name, namelen, inr, now, zoneOf, max, r.k % 64);
      InsertedSize(i, blocks, name, namelen, inr, now, zoneOf, max);
      AddSpecAt(i, blocks, namelen, zoneOf, max);
      assert r.k == AddSpec(i, blocks, namelen, zoneOf, max).k;
      InsertedView(i, r.dir, blocks, r.blocks, zoneOf, r.k);
      var after := DirView(r.dir, r.blocks);
      assert after(r.k / 64) == Read(r.blocks[(i.dev, AddZone(i, zoneOf, r.k / 64))].data);
      assert Hit(after, len, name, r.k);
      FoundFirst(r.dir, r.blocks, len, name);
    }
  }

  /**
   * `add_entry_safely(dir, name, namelen, inr)` at time `now`: claim the
   * entry `AddSpec` finds, write `inr` and the name zero-padded to 14
   * bytes into it, and dirty its block; the directory takes the new size
   * (its ctime set when it grew) and, on success, the mtime. `max` is
   * `I_MAX_DIR_ENTRIES`.
   */
  method AddEntry(i: MInode, blocks: map<(int, int), Block>, name: seq<byte>, namelen: int, inr: u16,
                  now: u32, zoneOf: nat -> int, max: nat)
    returns (k: int, i': MInode, blocks': map<(int, int), Block>)
    requires i.Valid() && BlocksOk(blocks) && namelen <= |name| && max <= MAX_ENTRIES
    ensures var a := AddSpec(i, blocks, namelen, zoneOf, max);
            k == a.k && 0 <= a.size < 0x1_0000_0000 &&
            i' == i.(d := i.d.(size := a.size, mtime := if k != NONE then now else i.d.mtime),
                     ctime := if a.size != i.d.size then now else i.ctime,
                     dirt := i.dirt || a.size != i.d.size || k != NONE)
    ensures Insertion(k, i', blocks') == Insert(i, blocks, name, namelen, inr, now, zoneOf, max)
    ensures k == NONE ==> blocks' == blocks
    ensures k != NONE ==>
              var z := if k / 64 == 0 then i.d.zone[0] as int else zoneOf(k / 64);
              z != 0 && (i.dev, z) in blocks && 0 < NameLen(namelen) &&
              var b := blocks[(i.dev, z)];
              EntryIn(b.data, k % 64).ino == 0 &&
              blocks' == blocks[(i.dev, z) := b.(data := PutEntry(b.data, k % 64, DirEntry(inr, Padded(name, NameLen(namelen)))),
                                                 dirt := true)]
  {
    ghost var view := AddView(i, blocks, zoneOf);
    assert AddViewOf(view, i, blocks, zoneOf);
    var a := Added(NONE, i.d.size);
    if NameLen(namelen) > 0 {
      var v := ReadAddBlock(i, blocks, zoneOf, 0, view);
      if v.Read? {
        a := AddScan(i, blocks, zoneOf, max, view);
      }
    }
    k, i', blocks' := StoreEntry(i, blocks, name, namelen, inr, now, zoneOf, max, a);
  }

  /** The writing part of `add_entry_safely`, once the scan has found `a`. */
  method StoreEntry(i: MInode, blocks: map<(int, int), Block>, name: seq<byte>, namelen: int, inr: u16,
                now: u32, zoneOf: nat -> int, max: nat, a: Added)
    returns (k: int, i': MInode, blocks': map<(int, int), Block>)
    requires i.Valid() && BlocksOk(blocks) && namelen <= |name| && max <= MAX_ENTRIES
    requires a == AddSpec(i, blocks, namelen, zoneOf, max)
    ensures k == a.k && 0 <= a.size < 0x1_0000_0000 &&
            i' == i.(d := i.d.(size := a.size, mtime := if k != NONE then now else i.d.mtime),
                     ctime := if a.size != i.d.size then now else i.ctime,
                     dirt := i.dirt || a.size != i.d.size || k != NONE)
    ensures Insertion(k, i', blocks') == Insert(i, blocks, name, namelen, inr, now, zoneOf, max)
    ensures k == NONE ==> blocks' == blocks
    ensures k != NONE ==>
              var z := if k / 64 == 0 then i.d.zone[0] as int else zoneOf(k / 64);
              z != 0 && (i.dev, z) in blocks && 0 < NameLen(namelen) &&
              var b := blocks[(i.dev, z)];
              EntryIn(b.data, k % 64).ino == 0 &&
              blocks' == blocks[(i.dev, z) := b.(data := PutEntry(b.data, k % 64, DirEntry(inr, Padded(name, NameLen(namelen)))),
                                                 dirt := true)]
  {
    AddSpecAt(i, blocks, namelen, zoneOf, max);
    k := a.k;
    var size := a.size;
    if k == NONE {
      i' := i.(d := i.d.(size := size), ctime := if size != i.d.size then now else i.ctime,
               dirt := i.dirt || size != i.d.size);
      return k, i', blocks;
    }
    var key := (i.dev, AddZone(i, zoneOf, k / 64));
    var e := DirEntry(inr, Padded(name, NameLen(namelen)));
    blocks' := blocks[key := blocks[key].(data := PutEntry(blocks[key].data, k % 64, e), dirt := true)];
    i' := i.(d := i.d.(size := size, mtime := now), ctime := if size != i.d.size then now else i.ctime, dirt := true);
  }

  /** The size `AddFrom` leaves is the old one or the end of an entry before `max`. */
  lemma {:induction false} AddBound(view: nat -> View, k: nat, max: nat, size: int)
    ensures var a := AddFrom(view, k, max, size);
            a.size == size || 0 < a.size <= max * 16
    decreases max - k
  {
    if k < max && view(k / 64) != NoZone {
      if !Readable(view(k / 64)) {
        AddBound(view, NextBlock(k), max, size);
      } else if !FreeAt(view(k / 64).data, k % 64) {
        var size' := if k * 16 >= size then (k + 1) * 16 else size;
        AddBound(view, k + 1, max, size');
      }
    }
  }
}
