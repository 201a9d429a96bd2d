/*
 * The file-system tables of fs/inode.c and fs/super.c: `inode_table[32]`
 * with its `last_inode` cursor, `super_block[8]`, `file_table[64]`, and
 * the blocks the file-system code reaches through `bread`/`getblk`.
 *
 * Above the buffer cache the file-system code only sees block contents,
 * dirty bits and reference counts, so `blocks` maps (device, block) to
 * that view: a block missing from the map is one `bread` cannot read.
 * The bitmap buffers a mounted superblock pins are held in its record.
 */
module Tables {
  import opened Layout
  import opened Records

  /** What `bread(dev, block)` hands back: the data, `b_dirt` and `b_count`. */
  datatype Block = Block(data: seq<byte>, dirt: bool, count: nat)

  // ---------------------------------------------------------------------
  // get_super
  // ---------------------------------------------------------------------

  /** The first slot from `k` on whose `s_dev` is `dev`, or NONE. */
  function SuperFrom(s: seq<Super>, dev: int, k: nat): (r: int)
    requires k <= |s|
    ensures r == NONE || k <= r < |s|
    ensures r == NONE <==> forall m :: k <= m < |s| ==> s[m].dev != dev
    ensures r != NONE ==> s[r].dev == dev && forall m :: k <= m < r ==> s[m].dev != dev
    decreases |s| - k
  {
    if k == |s| then NONE else if s[k].dev == dev then k else SuperFrom(s, dev, k + 1)
  }

  /** `get_super(dev)`: NONE for device 0, else the first slot holding `dev`. */
  function SuperOf(s: seq<Super>, dev: int): (r: int)
    ensures r == NONE || 0 <= r < |s|
    ensures r == NONE <==> (dev == 0 || forall m :: 0 <= m < |s| ==> s[m].dev != dev)
    ensures r != NONE ==> s[r].dev == dev && forall m :: 0 <= m < r ==> s[m].dev != dev
  {
    if dev == 0 then NONE else SuperFrom(s, dev, 0)
  }

  // ---------------------------------------------------------------------
  // Where an inode lives on disk
  // ---------------------------------------------------------------------

  /** Inode `num` is in block `2 + s_imap_blocks + s_zmap_blocks + (num-1)/32`. */
  function InodeBlock(sb: DSuper, num: int): (r: int)
    requires num >= 1
  {
    2 + sb.imapBlocks + sb.zmapBlocks + (num - 1) / INODES_PER_BLOCK
  }

  /** ... at record `(num-1) % 32` of that block. */
  function InodeOffset(num: int): (off: nat)
    requires num >= 1
    ensures off + D_INODE_SIZE <= BLOCK_SIZE && off % D_INODE_SIZE == 0
  {
    (num - 1) % INODES_PER_BLOCK * D_INODE_SIZE
  }

  /** Two different inode numbers never share a record. */
  lemma InodeSlotsDistinct(sb: DSuper, a: int, b: int)
    requires a >= 1 && b >= 1 && a != b
    ensures InodeBlock(sb, a) != InodeBlock(sb, b) || InodeOffset(a) != InodeOffset(b)
  {
    if InodeBlock(sb, a) == InodeBlock(sb, b) {
      assert (a - 1) / INODES_PER_BLOCK == (b - 1) / INODES_PER_BLOCK;
    }
  }

  /** The record of inode `num` in the block. */
  function LoadInode(data: seq<byte>, num: int): (d: DInode)
    requires num >= 1 && |data| == BLOCK_SIZE
    ensures d.Valid()
  {
    DecodeDInode(data[InodeOffset(num)..InodeOffset(num) + D_INODE_SIZE])
  }

  /** The block with the record of inode `num` replaced by `d`. */
  function StoreInode(data: seq<byte>, num: int, d: DInode): (r: seq<byte>)
    requires num >= 1 && |data| == BLOCK_SIZE && d.Valid()
    ensures |r| == BLOCK_SIZE
  {
    Splice(data, InodeOffset(num), EncodeDInode(d))
  }

  /** Reading back a stored record gives it. */
  lemma StoreLoadInode(data: seq<byte>, num: int, d: DInode)
    requires num >= 1 && |data| == BLOCK_SIZE && d.Valid()
    ensures LoadInode(StoreInode(data, num, d), num) == d
  {
    DInodeRoundTrip(d);
  }

  /** Storing one record leaves the other records of the block unchanged. */
  lemma StoreKeepsOthers(data: seq<byte>, num: int, other: int, d: DInode)
    requires num >= 1 && other >= 1 && |data| == BLOCK_SIZE && d.Valid()
    requires InodeOffset(other) != InodeOffset(num)
    ensures LoadInode(StoreInode(data, num, d), other) == LoadInode(data, other)
  {
    var r := StoreInode(data, num, d);
    var o, n := InodeOffset(other), InodeOffset(num);
    assert o + D_INODE_SIZE <= n || n + D_INODE_SIZE <= o by {
      var a, b := (other - 1) % INODES_PER_BLOCK, (num - 1) % INODES_PER_BLOCK;
      assert o == a * D_INODE_SIZE && n == b * D_INODE_SIZE && a != b;
    }
    forall j | o <= j < o + D_INODE_SIZE
      ensures r[j] == data[j]
    {
      assert !(n <= j < n + D_INODE_SIZE);
    }
    assert r[o..o + D_INODE_SIZE] == data[o..o + D_INODE_SIZE];
  }

  /** The blocks after `write_inode` stores inode record `d` of `num` in block `key`, dirtying it. */
  function PutInode(blocks: map<(int, int), Block>, key: (int, int), num: int, d: DInode)
    : (r: map<(int, int), Block>)
    requires key in blocks && num >= 1 && |blocks[key].data| == BLOCK_SIZE && d.Valid()
    ensures r.Keys == blocks.Keys && r[key].dirt && r[key].count == blocks[key].count
    ensures |r[key].data| == BLOCK_SIZE
    ensures forall k :: k in blocks && k != key ==> r[k] == blocks[k]
  {
    blocks[key := Block(StoreInode(blocks[key].data, num, d), true, blocks[key].count)]
  }

  /** The slot at `t` steps after `from` in the circular scan of `get_empty_inode`. */
  function Step(from: nat, t: nat): (k: nat)
    requires from < NR_INODE && t <= NR_INODE
    ensures k < NR_INODE
  {
    if from + t < NR_INODE then from + t else from + t - NR_INODE
  }

  /** The number of steps after `from` at which the scan reaches slot `r`, between 1 and 32. */
  function Dist(from: nat, r: nat): (t: nat)
    requires from < NR_INODE && r < NR_INODE
    ensures 1 <= t <= NR_INODE && Step(from, t) == r
  {
    if r > from then r - from else r + NR_INODE - from
  }

  /** A slot `get_empty_inode` takes at once: unused and clean. */
  predicate CleanFree(i: MInode)
  {
    i.count == 0 && !i.dirt
  }

  /** No slot is unused. */
  ghost predicate NoneFree(s: seq<MInode>)
  {
    forall k :: 0 <= k < |s| ==> s[k].count != 0
  }

  /** Slot `r` is unused and clean, and is the first such slot of the scan from `from`. */
  ghost predicate FirstCleanFree(s: seq<MInode>, from: nat, r: nat)
    requires |s| == NR_INODE && from < NR_INODE && r < NR_INODE
  {
    CleanFree(s[r]) && forall t :: 1 <= t < Dist(from, r) ==> !CleanFree(s[Step(from, t)])
  }

  /** No slot is unused and clean, and `r` is the last unused slot of the scan from `from`. */
  ghost predicate LastFree(s: seq<MInode>, from: nat, r: nat)
    requires |s| == NR_INODE && from < NR_INODE && r < NR_INODE
  {
    s[r].count == 0 && (forall k :: 0 <= k < NR_INODE ==> !CleanFree(s[k])) &&
    forall t :: Dist(from, r) < t <= NR_INODE ==> s[Step(from, t)].count != 0
  }

  /**
   * `get_empty_inode` took slot `r` of `s`, scanning from `last0`, and
   * left `last_inode` as `last` and the blocks `b0` as `b`: a clean unused
   * slot, the first of the scan, becomes `last_inode` and nothing is
   * written; a dirty one, the last unused slot of the scan, is written
   * back first.
   */
  ghost predicate EmptyTaken(supers: seq<Super>, s: seq<MInode>, last0: nat, b0: map<(int, int), Block>,
                             r: nat, last: nat, b: map<(int, int), Block>)
    requires |s| == NR_INODE && last0 < NR_INODE && r < NR_INODE
  {
    if !s[r].dirt then last == r && b == b0 && FirstCleanFree(s, last0, r)
    else
      last == last0 && LastFree(s, last0, r) && ReachableIn(supers, b0, s[r]) && s[r].d.Valid() &&
      |b0[KeyIn(supers, s[r])].data| == BLOCK_SIZE && b == PutInode(b0, KeyIn(supers, s[r]), s[r].num, s[r].d)
  }

  /** The scan loop of `get_empty_inode`; `clean` tells whether it stopped at a clean slot. */
  method ScanInodes(s: seq<MInode>, from: nat) returns (r: int, clean: bool)
    requires |s| == NR_INODE && from < NR_INODE
    ensures r == NONE ==> !clean && NoneFree(s)
    ensures r != NONE ==> 0 <= r < NR_INODE && s[r].count == 0
    ensures r != NONE && clean ==> FirstCleanFree(s, from, r)
    ensures r != NONE && !clean ==> LastFree(s, from, r)
  {
    var last := from;
    r, clean := NONE, false;
    var i := 0;
    while i < NR_INODE && !clean
      invariant 0 <= i <= NR_INODE
      invariant last == Step(from, i)
      invariant forall t :: 1 <= t <= i && !(clean && t == i) ==> !CleanFree(s[Step(from, t)])
      invariant clean ==> i >= 1 && r == last && CleanFree(s[r])
      invariant r == NONE ==> !clean && forall t :: 1 <= t <= i ==> s[Step(from, t)].count != 0
      invariant r != NONE ==> 0 <= r < NR_INODE && s[r].count == 0 && 1 <= Dist(from, r) <= i &&
                              forall t :: Dist(from, r) < t <= i ==> s[Step(from, t)].count != 0
    {
      last := last + 1;
      if last >= NR_INODE {
        last := 0;
      }
      i := i + 1;
      if s[last].count == 0 {
        r := last;
        assert Dist(from, r) == i;
        clean := !s[last].dirt;
      }
    }
    if r == NONE {
      forall k | 0 <= k < NR_INODE
        ensures s[k].count != 0
      {
        assert Step(from, Dist(from, k)) == k;
      }
    } else if !clean {
      forall k | 0 <= k < NR_INODE
        ensures !CleanFree(s[k])
      {
        assert Step(from, Dist(from, k)) == k;
      }
    }
  }

  /** The block holding the record of inode `i`, once its device is mounted. */
  function KeyIn(supers: seq<Super>, i: MInode): (r: (int, int))
    requires i.num >= 1 && SuperOf(supers, i.dev) != NONE
  {
    (i.dev, InodeBlock(supers[SuperOf(supers, i.dev)].d, i.num))
  }

  /** `write_inode` can reach inode `i`: its device is mounted and its inode block readable. */
  ghost predicate ReachableIn(supers: seq<Super>, blocks: map<(int, int), Block>, i: MInode)
  {
    i.num >= 1 && SuperOf(supers, i.dev) != NONE && KeyIn(supers, i) in blocks
  }

  /** `sync_inodes` writes this inode back. */
  predicate NeedsSync(i: MInode)
  {
    i.dirt && !i.pipe && i.dev != 0
  }

  /** `b'` caches the blocks `b` caches, each with the same reference count. */
  ghost predicate HoldsKept(b: map<(int, int), Block>, b': map<(int, int), Block>)
  {
    b'.Keys == b.Keys && forall key :: key in b ==> b'[key].count == b[key].count
  }

  /** The blocks after `write_inode` on the first `n` slots of `s` that need it, in slot order. */
  function Synced(blocks: map<(int, int), Block>, supers: seq<Super>, s: seq<MInode>, n: nat)
    : (r: map<(int, int), Block>)
    requires n <= |s|
    requires forall key :: key in blocks ==> |blocks[key].data| == BLOCK_SIZE
    requires forall k :: 0 <= k < n && NeedsSync(s[k]) ==> s[k].Valid() && ReachableIn(supers, blocks, s[k])
    ensures r.Keys == blocks.Keys && HoldsKept(blocks, r)
    ensures forall key :: key in r ==> |r[key].data| == BLOCK_SIZE
  {
    if n == 0 then blocks
    else
      var b := Synced(blocks, supers, s, n - 1);
      var i := s[n - 1];
      if NeedsSync(i) then
        assert s[n - 1].Valid() && ReachableIn(supers, blocks, s[n - 1]);
        PutInode(b, KeyIn(supers, i), i.num, i.d)
      else b
  }

  /** An inode after `sync_inodes` has written it back if it needed it. */
  function Cleaned(i: MInode): (c: MInode)
    ensures !NeedsSync(c) && c.(dirt := i.dirt) == i
    ensures c.dirt == (i.dirt && !NeedsSync(i))
  {
    i.(dirt := i.dirt && !NeedsSync(i))
  }

  /** Block `key` lies in the inode table of a loaded device: past its boot block, superblock and bitmaps. */
  ghost predicate InTable(supers: seq<Super>, key: (int, int))
  {
    var k := SuperOf(supers, key.0);
    k != NONE && key.1 >= 2 + supers[k].d.imapBlocks as int + supers[k].d.zmapBlocks as int
  }

  /**
   * `b1` is `b0` after `write_inode` calls: no block comes or goes or
   * changes its references, and a block that changed is an inode-table
   * block of a device loaded in `supers`.
   */
  ghost predicate RecordsOnly(b0: map<(int, int), Block>, b1: map<(int, int), Block>, supers: seq<Super>)
  {
    b1.Keys == b0.Keys &&
    forall key :: key in b0 ==> b1[key].count == b0[key].count && (b1[key] == b0[key] || InTable(supers, key))
  }

  /** Writes of inode records in a row are writes of inode records. */
  lemma RecordsOnlyThen(b0: map<(int, int), Block>, b1: map<(int, int), Block>, b2: map<(int, int), Block>,
                        supers: seq<Super>)
    requires RecordsOnly(b0, b1, supers) && RecordsOnly(b1, b2, supers)
    ensures RecordsOnly(b0, b2, supers)
  {
  }

  /** `write_inode` changes only the inode-table block that holds the record. */
  lemma PutInodeRecordsOnly(blocks: map<(int, int), Block>, supers: seq<Super>, i: MInode)
    requires ReachableIn(supers, blocks, i) && i.Valid() && |blocks[KeyIn(supers, i)].data| == BLOCK_SIZE
    ensures RecordsOnly(blocks, PutInode(blocks, KeyIn(supers, i), i.num, i.d), supers)
  {
    var key := KeyIn(supers, i);
    assert InTable(supers, key);
  }

  /** `sync_inodes` writes nothing but inode records. */
  lemma {:induction false} SyncedRecordsOnly(blocks: map<(int, int), Block>, supers: seq<Super>, s: seq<MInode>, n: nat)
    requires n <= |s|
    requires forall key :: key in blocks ==> |blocks[key].data| == BLOCK_SIZE
    requires forall k :: 0 <= k < n && NeedsSync(s[k]) ==> s[k].Valid() && ReachableIn(supers, blocks, s[k])
    ensures RecordsOnly(blocks, Synced(blocks, supers, s, n), supers)
  {
    if n > 0 {
      var b := Synced(blocks, supers, s, n - 1);
      SyncedRecordsOnly(blocks, supers, s, n - 1);
      var i := s[n - 1];
      if NeedsSync(i) {
        PutInodeRecordsOnly(b, supers, i);
        RecordsOnlyThen(blocks, b, Synced(blocks, supers, s, n), supers);
      }
    }
  }

  /** The loop of `sync_inodes` over the inode records of `s`. */
  method SyncValues(blocks: map<(int, int), Block>, supers: seq<Super>, s: seq<MInode>)
    returns (b: map<(int, int), Block>, s': seq<MInode>)
    requires forall key :: key in blocks ==> |blocks[key].data| == BLOCK_SIZE
    requires forall k :: 0 <= k < |s| && NeedsSync(s[k]) ==> s[k].Valid() && ReachableIn(supers, blocks, s[k])
    ensures b == Synced(blocks, supers, s, |s|)
    ensures |s'| == |s| && forall k :: 0 <= k < |s| ==> s'[k] == Cleaned(s[k])
  {
    b, s' := blocks, s;
    var k := 0;
    while k < |s|
      invariant 0 <= k <= |s| && |s'| == |s|
      invariant b == Synced(blocks, supers, s, k)
      invariant forall m :: 0 <= m < |s| ==> s'[m] == if m < k then Cleaned(s[m]) else s[m]
    {
      if s'[k].dirt && !s'[k].pipe && s'[k].dev != 0 {
        b := PutInode(b, KeyIn(supers, s'[k]), s'[k].num, s'[k].d);
      }
      s' := s'[k := Cleaned(s'[k])];
      k := k + 1;
    }
  }

  class FileSystem {
    var inodes: seq<MInode>
    var lastInode: nat
    var supers: seq<Super>
    var files: seq<File>
    var blocks: map<(int, int), Block>
    var rootDev: int

    ghost predicate Valid()
      reads this
    {
      |inodes| == NR_INODE && lastInode < NR_INODE && |supers| == NR_SUPER &&
      |files| == NR_FILE &&
      (forall k :: 0 <= k < NR_INODE ==> inodes[k].Valid() && (inodes[k].dirt ==> inodes[k].dev != 0)) &&
      (forall k :: 0 <= k < NR_SUPER ==> supers[k].Valid()) &&
      (forall key :: key in blocks ==> |blocks[key].data| == BLOCK_SIZE)
    }

    /** The block holding the record of inode `i`, when its device is mounted. */
    function InodeKey(i: MInode): (key: (int, int))
      reads this
      requires i.num >= 1 && SuperOf(supers, i.dev) != NONE
    {
      KeyIn(supers, i)
    }

    /** `read_inode`/`write_inode` can reach inode `i`. */
    ghost predicate Reachable(i: MInode)
      reads this
    {
      ReachableIn(supers, blocks, i)
    }

    /** `get_super`: the scan of `super_block[]`. */
    method GetSuper(dev: int) returns (r: int)
      ensures r == SuperOf(supers, dev)
    {
      if dev == 0 {
        return NONE;
      }
      var k := 0;
      while k < |supers|
        invariant 0 <= k <= |supers|
        invariant SuperFrom(supers, dev, k) == SuperFrom(supers, dev, 0)
      {
        if supers[k].dev == dev {
          return k;
        }
        k := k + 1;
      }
      return NONE;
    }

    /** `read_inode`: copy the disk record of slot `x` from its inode block. */
    method ReadInode(x: nat)
      requires Valid() && x < NR_INODE && Reachable(inodes[x])
      modifies this
      ensures Valid()
      ensures inodes == old(inodes[x := inodes[x].(d := LoadInode(blocks[InodeKey(inodes[x])].data, inodes[x].num))])
      ensures lastInode == old(lastInode) && supers == old(supers) && files == old(files)
      ensures blocks == old(blocks) && rootDev == old(rootDev)
    {
      var key := InodeKey(inodes[x]);
      inodes := inodes[x := inodes[x].(d := LoadInode(blocks[key].data, inodes[x].num))];
    }

    /**
     * `write_inode`: nothing for a clean inode or one without a device;
     * otherwise store the record, dirty the block and clear `i_dirt`.
     */
    method WriteInode(x: nat)
      requires Valid() && x < NR_INODE
      requires inodes[x].dirt && inodes[x].dev != 0 ==> Reachable(inodes[x])
      modifies this
      ensures Valid()
      ensures !old(inodes[x].dirt) || old(inodes[x].dev) == 0 ==>
                inodes == old(inodes) && blocks == old(blocks)
      ensures old(inodes[x].dirt) && old(inodes[x].dev) != 0 ==>
                inodes == old(inodes[x := inodes[x].(dirt := false)]) &&
                blocks == old(PutInode(blocks, InodeKey(inodes[x]), inodes[x].num, inodes[x].d))
      ensures lastInode == old(lastInode) && supers == old(supers) && files == old(files)
      ensures rootDev == old(rootDev)
    {
      if !inodes[x].dirt || inodes[x].dev == 0 {
        return;
      }
      var key := InodeKey(inodes[x]);
      var nb := PutInode(blocks, key, inodes[x].num, inodes[x].d);
      assert forall k :: k in nb ==> |nb[k].data| == BLOCK_SIZE by {
        forall k | k in nb
          ensures |nb[k].data| == BLOCK_SIZE
        {
          if k != key {
            assert nb[k] == blocks[k];
          }
        }
      }
      var ni := inodes[x := inodes[x].(dirt := false)];
      blocks, inodes := nb, ni;
    }

    /**
     * `get_empty_inode`: scan the 32 slots circularly from the one after
     * `last_inode`; take the first unused clean slot, else the last unused
     * slot seen (written back first). The slot is returned zeroed with
     * count 1. With every slot in use the source sleeps and retries; here
     * the result is NONE and nothing changes.
     */
    method GetEmptyInode() returns (r: int)
      requires Valid()
      requires forall k :: 0 <= k < NR_INODE && inodes[k].count == 0 && inodes[k].dirt ==>
                 Reachable(inodes[k])
      modifies this
      ensures Valid()
      ensures r == NONE ==> NoneFree(old(inodes)) && inodes == old(inodes) &&
                            blocks == old(blocks) && lastInode == old(lastInode)
      ensures r != NONE ==> 0 <= r < NR_INODE && old(inodes[r].count) == 0 &&
                            inodes == old(inodes[r := ZERO_INODE.(count := 1)])
      ensures r != NONE && !old(inodes[r].dirt) ==>
                lastInode == r && blocks == old(blocks) && FirstCleanFree(old(inodes), old(lastInode), r)
      ensures r != NONE && old(inodes[r].dirt) ==>
                lastInode == old(lastInode) && LastFree(old(inodes), old(lastInode), r) &&
                old(Reachable(inodes[r])) &&
                blocks == old(PutInode(blocks, InodeKey(inodes[r]), inodes[r].num, inodes[r].d))
      ensures supers == old(supers) && files == old(files) && rootDev == old(rootDev)
    {
      var clean;
      r, clean := ScanInodes(inodes, lastInode);
      if r == NONE {
        return;
      }
      if clean {
        lastInode := r;
      }
      WriteInode(r);
      inodes := inodes[r := ZERO_INODE.(count := 1)];
    }

    /**
     * `get_pipe_inode`: an empty inode holding the page `get_free_page`
     * returned (`page`, 0 when none) in `i_size`, with count 2 (reader and
     * writer), head and tail 0 and `i_pipe` set. Without a page the slot
     * is released again.
     */
    method GetPipeInode(page: u32) returns (r: int)
      requires Valid()
      requires forall k :: 0 <= k < NR_INODE && inodes[k].count == 0 && inodes[k].dirt ==>
                 Reachable(inodes[k])
      modifies this
      ensures Valid()
      ensures r == NONE || (0 <= r < NR_INODE && old(inodes[r].count) == 0)
      ensures r != NONE ==>
                page != 0 && inodes[r] == ZERO_INODE.(d := ZERO_DINODE.(size := page), count := 2, pipe := true)
      ensures r != NONE ==> forall k :: 0 <= k < NR_INODE && k != r ==> inodes[k] == old(inodes[k])
      ensures r == NONE <==> NoneFree(old(inodes)) || page == 0
      ensures r == NONE && NoneFree(old(inodes)) ==>
                inodes == old(inodes) && blocks == old(blocks) && lastInode == old(lastInode)
      ensures r != NONE ==> EmptyTaken(supers, old(inodes), old(lastInode), old(blocks), r, lastInode, blocks)
      ensures r == NONE && !NoneFree(old(inodes)) ==>
                exists k :: 0 <= k < NR_INODE && old(inodes[k].count) == 0 && inodes == old(inodes)[k := ZERO_INODE] &&
                            EmptyTaken(supers, old(inodes), old(lastInode), old(blocks), k, lastInode, blocks)
      ensures supers == old(supers) && files == old(files) && rootDev == old(rootDev)
    {
      r := GetEmptyInode();
      if r == NONE {
        return;
      }
      if page == 0 {
        inodes := inodes[r := inodes[r].(d := inodes[r].d.(size := 0), count := 0)];
        return NONE;
      }
      var zone := inodes[r].d.zone[0 := 0][1 := 0];
      inodes := inodes[r := inodes[r].(d := inodes[r].d.(size := page, zone := zone),
                                       count := 2, pipe := true)];
    }

    /** `sync_inodes`: write back every dirty inode that is not a pipe, in slot order. */
    method SyncInodes()
      requires Valid()
      requires forall k :: 0 <= k < NR_INODE && NeedsSync(inodes[k]) ==> ReachableIn(supers, blocks, inodes[k])
      modifies this
      ensures supers == old(supers)
      ensures Valid()
      ensures blocks == Synced(old(blocks), supers, old(inodes), NR_INODE)
      ensures forall k :: 0 <= k < NR_INODE ==> inodes[k] == Cleaned(old(inodes[k]))
      ensures forall k :: 0 <= k < NR_INODE ==> !NeedsSync(inodes[k])
      ensures lastInode == old(lastInode) && files == old(files) && rootDev == old(rootDev)
    {
      blocks, inodes := SyncValues(blocks, supers, inodes);
    }

    /** `invalidate_inodes(dev)`: every slot of `dev` loses its device and its dirty bit. */
    method InvalidateInodes(dev: int)
      requires Valid()
      modifies this
      ensures Valid()
      ensures forall k :: 0 <= k < NR_INODE ==>
                inodes[k] == if old(inodes[k].dev) == dev then old(inodes[k]).(dev := 0, dirt := false)
                             else old(inodes[k])
      ensures blocks == old(blocks) && lastInode == old(lastInode) && supers == old(supers)
      ensures files == old(files) && rootDev == old(rootDev)
    {
      var k := 0;
      while k < NR_INODE
        invariant 0 <= k <= NR_INODE && Valid()
        invariant forall m :: 0 <= m < NR_INODE ==>
                    inodes[m] == if m < k && old(inodes[m].dev) == dev then old(inodes[m]).(dev := 0, dirt := false)
                                 else old(inodes[m])
        invariant blocks == old(blocks) && lastInode == old(lastInode) && supers == old(supers)
        invariant files == old(files) && rootDev == old(rootDev)
      {
        if inodes[k].dev == dev {
          inodes := inodes[k := inodes[k].(dev := 0, dirt := false)];
        }
        k := k + 1;
      }
    }
  }
}
