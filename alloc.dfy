/*
 * The allocators of fs/bitmap.c on the file-system tables: `new_block`
 * and `free_block` on a device's zone bitmap, `new_inode` and
 * `free_inode` on its inode bitmap.
 *
 * Bits are mapped to zones and inode numbers by the intended arithmetic
 * (`Bitmap.ZoneOfBit`, `Layout.MaskIntended`); the expansions the source
 * actually computes are `Bitmap.ZoneOfBitAsWritten` and
 * `Bitmap.FreeBitAsWritten`.
 */
module Alloc {
  import opened Layout
  import opened Bits
  import opened Records
  import opened Bitmap
  import opened Tables

  /** Zone `zone` is a data zone of `s` whose bit is set in the zone bitmap. */
  ghost predicate ZoneAllocated(s: Super, zone: int)
    requires s.Valid()
  {
    s.d.firstDataZone <= zone < s.d.nzones &&
    var n := BitOfZone(zone, s.d.firstDataZone);
    ZmapIndx(n) < |s.zoneMap| && Bit(s.zoneMap[ZmapIndx(n)], MaskIntended(n))
  }

  /** Inode `num` has its bit set in the inode bitmap of `s`. */
  ghost predicate InodeAllocated(s: Super, num: int)
    requires s.Valid()
  {
    num >= 0 && ZmapIndx(num) < |s.inodeMap| && Bit(s.inodeMap[ZmapIndx(num)], MaskIntended(num))
  }

  /**
   * Bit 0 of both bitmaps is set, as `read_super` leaves it, so zone bit 0
   * and inode 0 are never handed out; and the data zones start after the
   * boot block, so no zone handed out is 0.
   */
  ghost predicate SuperSane(s: Super)
    requires s.Valid()
  {
    s.d.firstDataZone >= 1 &&
    (|s.zoneMap| > 0 ==> Bit(s.zoneMap[0], 0)) && (|s.inodeMap| > 0 ==> Bit(s.inodeMap[0], 0))
  }

  /** `s'` differs from `s` in its zone bitmap only, which gained zone `z` (none when 0) and lost none. */
  ghost predicate ZoneGained(s: Super, s': Super, z: int)
    requires s.Valid() && s'.Valid()
  {
    s' == s.(zoneMap := s'.zoneMap, zoneMapDirt := s'.zoneMapDirt) &&
    (SuperSane(s) ==> SuperSane(s')) &&
    forall y :: ZoneAllocated(s', y) == ((z != 0 && y == z) || ZoneAllocated(s, y))
  }

  /** `s'` differs from `s` in its zone bitmap only, which lost zone `z` and gained none. */
  ghost predicate ZoneLost(s: Super, s': Super, z: int)
    requires s.Valid() && s'.Valid()
  {
    s' == s.(zoneMap := s'.zoneMap, zoneMapDirt := s'.zoneMapDirt) &&
    (SuperSane(s) ==> SuperSane(s')) &&
    forall y :: ZoneAllocated(s', y) == (y != z && ZoneAllocated(s, y))
  }

  /**
   * Every buffer of a data zone of `dev` that somebody holds belongs to an
   * allocated zone, so `getblk` in `new_block` always hands back a buffer
   * nobody else holds.
   */
  ghost predicate HeldZonesAllocated(s: Super, blocks: map<(int, int), Block>, dev: int)
    requires s.Valid()
  {
    forall key :: key in blocks && key.0 == dev && key.1 >= s.d.firstDataZone && blocks[key].count != 0 ==>
      ZoneAllocated(s, key.1)
  }

  /** The buffer `new_block` leaves behind: zero-filled, dirty, nobody holding it. */
  const ZERO_BLOCK: Block := Block(Zeros(BLOCK_SIZE), true, 0)

  /** Zone `z` is allocated on the mounted device `dev`. */
  ghost predicate Allocated(supers: seq<Super>, dev: int, z: int)
  {
    var sb := SuperOf(supers, dev);
    sb != NONE && supers[sb].Valid() && ZoneAllocated(supers[sb], z)
  }

  /** `new_block(dev)` can run: `dev` is mounted, its bitmaps sane, no free data zone's buffer held. */
  ghost predicate CanAllocate(supers: seq<Super>, blocks: map<(int, int), Block>, dev: int)
  {
    var sb := SuperOf(supers, dev);
    sb != NONE && supers[sb].Valid() && SuperSane(supers[sb]) && HeldZonesAllocated(supers[sb], blocks, dev)
  }

  /** From `supers` to `supers'` only the zone bitmap of `dev` changed, gaining zone `z` (none when 0). */
  ghost predicate SupersGrew(supers: seq<Super>, supers': seq<Super>, dev: int, z: int)
  {
    var sb := SuperOf(supers, dev);
    sb != NONE && supers[sb].Valid() && |supers'| == |supers| && supers' == supers[sb := supers'[sb]] &&
    supers'[sb].Valid() && SuperOf(supers', dev) == sb && ZoneGained(supers[sb], supers'[sb], z)
  }

  /** From `supers` to `supers'` only the zone bitmap of `dev` changed, and no zone was lost. */
  ghost predicate SupersOnlyGrew(supers: seq<Super>, supers': seq<Super>, dev: int)
  {
    var sb := SuperOf(supers, dev);
    sb != NONE && supers[sb].Valid() && |supers'| == |supers| && supers' == supers[sb := supers'[sb]] &&
    supers'[sb].Valid() && SuperOf(supers', dev) == sb &&
    supers'[sb] == supers[sb].(zoneMap := supers'[sb].zoneMap, zoneMapDirt := supers'[sb].zoneMapDirt) &&
    (SuperSane(supers[sb]) ==> SuperSane(supers'[sb])) &&
    forall y :: ZoneAllocated(supers[sb], y) ==> ZoneAllocated(supers'[sb], y)
  }

  /** One allocation is a growth, and growth composes. */
  lemma GrewChain(a: seq<Super>, b: seq<Super>, c: seq<Super>, dev: int, z: int)
    requires SupersGrew(a, b, dev, z) || SupersOnlyGrew(a, b, dev) || a == b
    requires SupersGrew(b, c, dev, z) || SupersOnlyGrew(b, c, dev) || b == c
    requires SuperOf(a, dev) != NONE && a[SuperOf(a, dev)].Valid()
    ensures SupersOnlyGrew(a, c, dev)
  {
  }

  /** `s` with zone bit `j` of block `i` set and that block dirty. */
  function ClaimedZone(s: Super, i: nat, j: nat): (r: Super)
    requires s.Valid() && i < |s.zoneMap| && j < BITS_PER_BLOCK
    ensures r.Valid() && r.d == s.d && r.inodeMap == s.inodeMap && r.dev == s.dev
  {
    s.(zoneMap := s.zoneMap[i := SetBit(s.zoneMap[i], j).1], zoneMapDirt := s.zoneMapDirt[i := true])
  }

  /** `s` after `free_block(block)` has cleared the zone's bit and dirtied its block. */
  function ReleasedZone(s: Super, block: int): (r: Super)
    requires s.Valid() && block >= s.d.firstDataZone
    requires ZmapIndx(BitOfZone(block, s.d.firstDataZone)) < |s.zoneMap|
    ensures r.Valid() && r.d == s.d && r.inodeMap == s.inodeMap && r.dev == s.dev
  {
    var n := BitOfZone(block, s.d.firstDataZone);
    var rel := ReleaseBit(s.zoneMap, s.zoneMapDirt, ZmapIndx(n), MaskIntended(n));
    s.(zoneMap := rel.0, zoneMapDirt := rel.1)
  }

  /** `s` with inode bit `j` of block `i` set and that block dirty. */
  function ClaimedInode(s: Super, i: nat, j: nat): (r: Super)
    requires s.Valid() && i < |s.inodeMap| && j < BITS_PER_BLOCK
    ensures r.Valid() && r.d == s.d && r.zoneMap == s.zoneMap && r.dev == s.dev
  {
    s.(inodeMap := s.inodeMap[i := SetBit(s.inodeMap[i], j).1], inodeMapDirt := s.inodeMapDirt[i := true])
  }

  /** `s` after `free_inode` has cleared the bit of inode `num` and dirtied its block. */
  function ReleasedInode(s: Super, num: nat): (r: Super)
    requires s.Valid() && ZmapIndx(num) < |s.inodeMap|
    ensures r.Valid() && r.d == s.d && r.zoneMap == s.zoneMap && r.dev == s.dev
  {
    var rel := ReleaseBit(s.inodeMap, s.inodeMapDirt, ZmapIndx(num), MaskIntended(num));
    s.(inodeMap := rel.0, inodeMapDirt := rel.1)
  }

  /**
   * `s` after `free_inode` as written: `inr & BLCK_MASK` is `inr & 4096`
   * (`Layout.MaskAsWritten`), so the bit cleared is bit 0 or bit 4096 of
   * the inode's bitmap block rather than the inode's own bit.
   */
  function ReleasedInodeAsWritten(s: Super, num: nat): (r: Super)
    requires s.Valid() && ZmapIndx(num) < |s.inodeMap|
    ensures r.Valid() && r.d == s.d && r.zoneMap == s.zoneMap && r.dev == s.dev
  {
    var rel := ReleaseBit(s.inodeMap, s.inodeMapDirt, ZmapIndx(num), MaskAsWritten(num));
    s.(inodeMap := rel.0, inodeMapDirt := rel.1)
  }

  /**
   * As written, `free_inode` of inode 5 leaves inode 5 allocated and
   * clears bit 0 instead, the bit that keeps inode 0 from being handed out.
   */
  lemma FreeInodeAsWrittenKeepsBit(s: Super)
    requires s.Valid() && SuperSane(s) && InodeAllocated(s, 5)
    ensures var r := ReleasedInodeAsWritten(s, 5);
            InodeAllocated(r, 5) && !Bit(r.inodeMap[0], 0) && SuperSane(s) && !SuperSane(r)
  {
    assert MaskAsWritten(5) == 0 && ZmapIndx(5) == 0 && MaskIntended(5) == 5;
  }

  /** Claiming the first clear zone bit allocates its zone and no other. */
  lemma ClaimAllocatesOnlyThatZone(s: Super, i: nat, j: nat, z: int)
    requires s.Valid() && FirstClear(s.zoneMap, i, j)
    requires i > 0 || j > 0
    ensures !ZoneAllocated(s, ZoneOfBit(i, j, s.d.firstDataZone))
    ensures ZoneOfBit(i, j, s.d.firstDataZone) >= s.d.firstDataZone
    ensures ZoneAllocated(ClaimedZone(s, i, j), z) ==
            ((z == ZoneOfBit(i, j, s.d.firstDataZone) && z < s.d.nzones) || ZoneAllocated(s, z))
  {
    var fdz := s.d.firstDataZone;
    ZoneBitRoundTrip(i, j, fdz);
    if z >= fdz {
      BitZoneRoundTrip(z, fdz);
      var n := BitOfZone(z, fdz);
      if ZmapIndx(n) < |s.zoneMap| {
        ClaimSetsOnlyThatBit(s.zoneMap, i, j, ZmapIndx(n), MaskIntended(n));
      }
    }
  }

  /** Freeing a zone clears its allocation and no other. */
  lemma ReleaseFreesOnlyThatZone(s: Super, block: int, z: int)
    requires s.Valid() && block >= s.d.firstDataZone
    requires ZmapIndx(BitOfZone(block, s.d.firstDataZone)) < |s.zoneMap|
    ensures ZoneAllocated(ReleasedZone(s, block), z) == (z != block && ZoneAllocated(s, z))
  {
    var fdz := s.d.firstDataZone;
    BitZoneRoundTrip(block, fdz);
    if z >= fdz {
      BitZoneRoundTrip(z, fdz);
    }
  }

  /** Freeing an inode clears its bit and no other inode's. */
  lemma ReleaseFreesOnlyThatInode(s: Super, num: nat, n: int)
    requires s.Valid() && ZmapIndx(num) < |s.inodeMap|
    ensures InodeAllocated(ReleasedInode(s, num), n) == (n != num && InodeAllocated(s, n))
  {
    if n >= 0 && n != num {
      assert ZmapIndx(n) != ZmapIndx(num) || MaskIntended(n) != MaskIntended(num);
    }
  }

  /** Freeing an inode in the mounted table leaves the device's slot, its zone bits and every other inode's bit. */
  lemma ReleasedInodeIn(supers: seq<Super>, sb: nat, num: nat, dev: int)
    requires sb < |supers| && SuperOf(supers, dev) == sb && supers[sb].Valid() && ZmapIndx(num) < |supers[sb].inodeMap|
    ensures var u := supers[sb := ReleasedInode(supers[sb], num)];
            SuperOf(u, dev) == sb && u[sb].Valid() &&
            (forall n :: InodeAllocated(u[sb], n) == (n != num && InodeAllocated(supers[sb], n))) &&
            (forall y :: Allocated(u, dev, y) == Allocated(supers, dev, y))
  {
    var r := ReleasedInode(supers[sb], num);
    SuperOfKept(supers, sb, r, dev);
    forall n ensures InodeAllocated(r, n) == (n != num && InodeAllocated(supers[sb], n)) {
      ReleaseFreesOnlyThatInode(supers[sb], num, n);
    }
  }

  /** Claiming the first clear zone bit gains its zone when it is below `s_nzones`, and nothing else. */
  lemma ClaimGains(s: Super, i: nat, j: nat)
    requires s.Valid() && SuperSane(s) && FirstClear(s.zoneMap, i, j)
    ensures i > 0 || j > 0
    ensures var z := ZoneOfBit(i, j, s.d.firstDataZone);
            z >= s.d.firstDataZone && !ZoneAllocated(s, z) &&
            ZoneGained(s, ClaimedZone(s, i, j), if z < s.d.nzones then z else 0)
  {
    var s' := ClaimedZone(s, i, j);
    if i == 0 && j == 0 {
      assert false;
    }
    forall y
      ensures ZoneAllocated(s', y) ==
              ((y == ZoneOfBit(i, j, s.d.firstDataZone) && y < s.d.nzones) || ZoneAllocated(s, y))
    {
      ClaimAllocatesOnlyThatZone(s, i, j, y);
    }
    ClaimSetsOnlyThatBit(s.zoneMap, i, j, 0, 0);
  }

  /** Freeing a data zone loses that zone and nothing else, and keeps bit 0 set. */
  lemma ReleaseLoses(s: Super, block: int)
    requires s.Valid() && block >= s.d.firstDataZone
    requires ZmapIndx(BitOfZone(block, s.d.firstDataZone)) < |s.zoneMap|
    ensures ZoneLost(s, ReleasedZone(s, block), block)
  {
    var s' := ReleasedZone(s, block);
    forall y
      ensures ZoneAllocated(s', y) == (y != block && ZoneAllocated(s, y))
    {
      ReleaseFreesOnlyThatZone(s, block, y);
    }
    if |s.zoneMap| > 0 {
      BitZoneRoundTrip(block, s.d.firstDataZone);
      assert Bit(s'.zoneMap[0], 0) == Bit(s.zoneMap[0], 0);
    }
  }

  /** Replacing a superblock slot by one of the same device leaves `get_super` unchanged. */
  lemma SuperOfKept(supers: seq<Super>, sb: nat, s': Super, dev: int)
    requires sb < |supers| && s'.dev == supers[sb].dev
    ensures SuperOf(supers[sb := s'], dev) == SuperOf(supers, dev)
  {
    var t := supers[sb := s'];
    assert forall m :: 0 <= m < |t| ==> t[m].dev == supers[m].dev;
  }

  /** Freeing the zone `new_block` just claimed gives back the zone bitmap, its block left dirty. */
  lemma NewThenFreeZone(s: Super, i: nat, j: nat)
    requires s.Valid() && FirstClear(s.zoneMap, i, j)
    ensures var z := ZoneOfBit(i, j, s.d.firstDataZone);
            z >= s.d.firstDataZone - 1 &&
            (z >= s.d.firstDataZone ==>
              ReleasedZone(ClaimedZone(s, i, j), z) == s.(zoneMapDirt := s.zoneMapDirt[i := true]))
  {
    var fdz := s.d.firstDataZone;
    ZoneBitRoundTrip(i, j, fdz);
    ClaimThenRelease(s.zoneMap, s.zoneMapDirt, i, j);
  }

  /** Freeing the inode `new_inode` just numbered gives back the inode bitmap, its block left dirty. */
  lemma NewThenFreeInode(s: Super, i: nat, j: nat)
    requires s.Valid() && FirstClear(s.inodeMap, i, j)
    ensures !InodeAllocated(s, InodeOfBit(i, j)) && InodeAllocated(ClaimedInode(s, i, j), InodeOfBit(i, j))
    ensures ReleasedInode(ClaimedInode(s, i, j), InodeOfBit(i, j)) ==
            s.(inodeMapDirt := s.inodeMapDirt[i := true])
  {
    ClaimSetsOnlyThatBit(s.inodeMap, i, j, i, j);
    ClaimThenRelease(s.inodeMap, s.inodeMapDirt, i, j);
  }

  /** The inode `new_inode` hands out in slot position: zeroed, then filled in for `dev`. */
  function FreshInode(dev: int, num: int, uid: u16, gid: u16, now: u32): (i: MInode)
    ensures i.Valid() && i.count == 1 && i.dirt && i.d.nlinks == 1 && i.d.size == 0
    ensures i.d.gid == gid % 0x100 && i.d.uid == uid && i.d.mtime == i.atime == i.ctime == now
  {
    ZERO_INODE.(d := ZERO_DINODE.(uid := uid, gid := gid % 0x100, nlinks := 1, mtime := now),
                atime := now, ctime := now, dev := dev, num := num, count := 1, dirt := true)
  }

  /**
   * `new_block(dev)`: claim the first clear bit of the zone bitmap and
   * return its zone, zero-filled and dirty with no reference held. 0
   * when no bit is clear (nothing changes) or when the zone is not below
   * `s_nzones` (the bit stays set). `found`, `bi`, `bj` name the bit.
   */
  method NewBlock(fs: FileSystem, dev: int) returns (zone: int, ghost found: bool, ghost bi: nat, ghost bj: nat)
    requires fs.Valid() && CanAllocate(fs.supers, fs.blocks, dev)
    modifies fs
    ensures fs.Valid() && CanAllocate(fs.supers, fs.blocks, dev)
    ensures SupersGrew(old(fs.supers), fs.supers, dev, zone)
    ensures zone != 0 ==> !Allocated(old(fs.supers), dev, zone) && Allocated(fs.supers, dev, zone)
    ensures fs.blocks == if zone == 0 then old(fs.blocks) else old(fs.blocks)[(dev, zone) := ZERO_BLOCK]
    ensures fs.inodes == old(fs.inodes) && fs.lastInode == old(fs.lastInode)
    ensures fs.files == old(fs.files) && fs.rootDev == old(fs.rootDev)
    ensures var sb := SuperOf(old(fs.supers), dev); var s := old(fs.supers[sb]);
            && (!found ==> zone == 0 && fs.supers == old(fs.supers) && fs.blocks == old(fs.blocks) &&
                           forall b :: 0 <= b < |s.zoneMap| ==> Full(s.zoneMap[b]))
            && (found ==> FirstClear(s.zoneMap, bi, bj) && (bi > 0 || bj > 0) &&
                          fs.supers == old(fs.supers)[sb := ClaimedZone(s, bi, bj)])
            && (found && ZoneOfBit(bi, bj, s.d.firstDataZone) >= s.d.nzones ==>
                  zone == 0 && fs.blocks == old(fs.blocks))
            && (found && ZoneOfBit(bi, bj, s.d.firstDataZone) < s.d.nzones ==>
                  zone == ZoneOfBit(bi, bj, s.d.firstDataZone) && zone >= s.d.firstDataZone &&
                  zone != 0)
  {
    var sb := fs.GetSuper(dev);
    var s := fs.supers[sb];
    var maps, dirt, ok, i, j := ClaimFirstFree(s.zoneMap, s.zoneMapDirt);
    found, bi, bj := ok, i, j;
    if !ok {
      return 0, found, bi, bj;
    }
    ClaimGains(s, i, j);
    SuperOfKept(fs.supers, sb, ClaimedZone(s, i, j), dev);
    fs.supers := fs.supers[sb := ClaimedZone(s, i, j)];
    zone := ZoneOfBit(i, j, s.d.firstDataZone);
    if zone >= s.d.nzones {
      return 0, found, bi, bj;
    }
    if (dev, zone) in fs.blocks && fs.blocks[(dev, zone)].count != 0 {
      assert false;
    }
    fs.blocks := fs.blocks[(dev, zone) := ZERO_BLOCK];
  }

  /** `get_hash_table` finds the block held by somebody else: `free_block` refuses it. */
  predicate HeldElsewhere(blocks: map<(int, int), Block>, dev: int, block: int)
  {
    (dev, block) in blocks && blocks[(dev, block)].count != 0
  }

  /**
   * `free_block(dev, block)`: a block somebody else holds is refused
   * (`freed` false), and the reference `get_hash_table` took on it is
   * kept, so its count ends one higher; otherwise its cached copy is no
   * longer dirty and its zone bit is cleared, that bitmap block dirtied.
   * Blocks outside the data zones and already-clear bits are fatal in the
   * source, hence preconditions here.
   */
  method FreeBlock(fs: FileSystem, dev: int, block: int) returns (freed: bool)
    requires fs.Valid() && SuperOf(fs.supers, dev) != NONE
    requires var s := fs.supers[SuperOf(fs.supers, dev)];
             s.d.firstDataZone <= block < s.d.nzones &&
             (HeldElsewhere(fs.blocks, dev, block) || ZoneAllocated(s, block))
    modifies fs
    ensures fs.Valid()
    ensures fs.inodes == old(fs.inodes) && fs.lastInode == old(fs.lastInode)
    ensures fs.files == old(fs.files) && fs.rootDev == old(fs.rootDev)
    ensures freed == !old(HeldElsewhere(fs.blocks, dev, block))
    ensures var key := (dev, block);
            !freed ==> fs.supers == old(fs.supers) &&
                       fs.blocks == old(fs.blocks)[key := old(fs.blocks[key]).(count := old(fs.blocks[key].count) + 1)]
    ensures var sb := SuperOf(old(fs.supers), dev);
            freed ==> fs.supers == old(fs.supers)[sb := ReleasedZone(old(fs.supers[sb]), block)] &&
                      SuperOf(fs.supers, dev) == sb && ZoneLost(old(fs.supers[sb]), fs.supers[sb], block)
    ensures var sb := SuperOf(old(fs.supers), dev);
            old(HeldZonesAllocated(fs.supers[sb], fs.blocks, dev)) ==>
              HeldZonesAllocated(fs.supers[sb], fs.blocks, dev)
    ensures var key := (dev, block);
            freed ==> fs.blocks == if key in old(fs.blocks) then old(fs.blocks)[key := old(fs.blocks[key]).(dirt := false)]
                                   else old(fs.blocks)
  {
    var sb := fs.GetSuper(dev);
    var s := fs.supers[sb];
    var key := (dev, block);
    if key in fs.blocks {
      if fs.blocks[key].count != 0 {
        fs.blocks := fs.blocks[key := fs.blocks[key].(count := fs.blocks[key].count + 1)];
        return false;
      }
      fs.blocks := fs.blocks[key := fs.blocks[key].(dirt := false)];
    }
    ReleaseLoses(s, block);
    SuperOfKept(fs.supers, sb, ReleasedZone(s, block), dev);
    fs.supers := fs.supers[sb := ReleasedZone(s, block)];
    freed := true;
  }

  /** Writing inode records back keeps every buffer and its references, so `new_block` can still run. */
  lemma KeptAllocating(supers: seq<Super>, blocks: map<(int, int), Block>, blocks': map<(int, int), Block>, dev: int)
    requires HoldsKept(blocks, blocks')
    ensures CanAllocate(supers, blocks, dev) ==> CanAllocate(supers, blocks', dev)
  {
  }

  /** Claiming an inode bit leaves the zone bitmap, bit 0 of the inode bitmap and `get_super` as they were. */
  lemma ClaimKeepsAllocating(supers: seq<Super>, blocks: map<(int, int), Block>, dev: int, i: nat, j: nat)
    requires SuperOf(supers, dev) != NONE && supers[SuperOf(supers, dev)].Valid()
    requires FirstClear(supers[SuperOf(supers, dev)].inodeMap, i, j)
    ensures var sb := SuperOf(supers, dev);
            var supers' := supers[sb := ClaimedInode(supers[sb], i, j)];
            SuperOf(supers', dev) == sb &&
            (CanAllocate(supers, blocks, dev) ==> CanAllocate(supers', blocks, dev))
  {
    var sb := SuperOf(supers, dev);
    var s := supers[sb];
    if |s.inodeMap| > 0 {
      ClaimSetsOnlyThatBit(s.inodeMap, i, j, 0, 0);
    }
    SuperOfKept(supers, sb, ClaimedInode(s, i, j), dev);
  }

  /**
   * `new_inode(dev)`: an empty slot (`slot`, from `get_empty_inode`)
   * numbered by the first clear bit of the inode bitmap and filled in
   * with one link, the caller's effective ids, the time `now` and the
   * dirty bit. With no clear bit, or a number above `s_ninodes` (the bit
   * then stays set), the slot is released and the result is NONE.
   */
  method NewInode(fs: FileSystem, dev: int, euid: u16, egid: u16, now: u32)
    returns (r: int, ghost slot: int, ghost found: bool, ghost bi: nat, ghost bj: nat)
    requires fs.Valid() && SuperOf(fs.supers, dev) != NONE
    requires forall k :: 0 <= k < NR_INODE && fs.inodes[k].count == 0 && fs.inodes[k].dirt ==>
               fs.Reachable(fs.inodes[k])
    modifies fs
    ensures fs.Valid()
    ensures fs.files == old(fs.files) && fs.rootDev == old(fs.rootDev)
    ensures r == NONE || r == slot
    ensures slot == NONE ==> r == NONE && NoneFree(old(fs.inodes)) && fs.inodes == old(fs.inodes) &&
                             fs.supers == old(fs.supers) && fs.blocks == old(fs.blocks)
    ensures slot != NONE ==> 0 <= slot < NR_INODE && old(fs.inodes[slot].count) == 0 &&
                             forall k :: 0 <= k < NR_INODE && k != slot ==> fs.inodes[k] == old(fs.inodes[k])
    ensures var sb := SuperOf(old(fs.supers), dev); var s := old(fs.supers[sb]);
            && (slot != NONE && !found ==>
                  r == NONE && fs.inodes[slot] == ZERO_INODE && fs.supers == old(fs.supers) &&
                  forall b :: 0 <= b < |s.inodeMap| ==> Full(s.inodeMap[b]))
            && (slot != NONE && found ==>
                  FirstClear(s.inodeMap, bi, bj) && fs.supers == old(fs.supers)[sb := ClaimedInode(s, bi, bj)])
            && (slot != NONE && found && InodeOfBit(bi, bj) > s.d.ninodes ==>
                  r == NONE && fs.inodes[slot] == ZERO_INODE)
            && (slot != NONE && found && InodeOfBit(bi, bj) <= s.d.ninodes ==>
                  r == slot && fs.inodes[slot] == FreshInode(dev, InodeOfBit(bi, bj), euid, egid, now))
    ensures HoldsKept(old(fs.blocks), fs.blocks)
    ensures old(CanAllocate(fs.supers, fs.blocks, dev)) ==> CanAllocate(fs.supers, fs.blocks, dev)
  {
    ghost var blocks0 := fs.blocks;
    var e := fs.GetEmptyInode();
    KeptAllocating(old(fs.supers), blocks0, fs.blocks, dev);
    slot, found, bi, bj := e, false, 0, 0;
    if e == NONE {
      return NONE, slot, found, bi, bj;
    }
    r, found, bi, bj := NumberSlot(fs, e, dev, euid, egid, now);
  }

  /** The second half of `new_inode`: number the emptied slot `e` from the inode bitmap of `dev`, or give it back. */
  method NumberSlot(fs: FileSystem, e: int, dev: int, euid: u16, egid: u16, now: u32)
    returns (r: int, ghost found: bool, ghost bi: nat, ghost bj: nat)
    requires fs.Valid() && SuperOf(fs.supers, dev) != NONE && 0 <= e < NR_INODE
    requires fs.inodes[e] == ZERO_INODE.(count := 1)
    modifies fs
    ensures fs.Valid()
    ensures fs.files == old(fs.files) && fs.rootDev == old(fs.rootDev) && fs.blocks == old(fs.blocks)
    ensures fs.lastInode == old(fs.lastInode)
    ensures r == NONE || r == e
    ensures forall k :: 0 <= k < NR_INODE && k != e ==> fs.inodes[k] == old(fs.inodes[k])
    ensures var sb := SuperOf(old(fs.supers), dev); var s := old(fs.supers[sb]);
            && (!found ==>
                  r == NONE && fs.inodes[e] == ZERO_INODE && fs.supers == old(fs.supers) &&
                  forall b :: 0 <= b < |s.inodeMap| ==> Full(s.inodeMap[b]))
            && (found ==>
                  FirstClear(s.inodeMap, bi, bj) && fs.supers == old(fs.supers)[sb := ClaimedInode(s, bi, bj)])
            && (found && InodeOfBit(bi, bj) > s.d.ninodes ==>
                  r == NONE && fs.inodes[e] == ZERO_INODE)
            && (found && InodeOfBit(bi, bj) <= s.d.ninodes ==>
                  r == e && fs.inodes[e] == FreshInode(dev, InodeOfBit(bi, bj), euid, egid, now))
    ensures old(CanAllocate(fs.supers, fs.blocks, dev)) ==> CanAllocate(fs.supers, fs.blocks, dev)
  {
    var sb := fs.GetSuper(dev);
    var s := fs.supers[sb];
    var maps, dirt, ok, i, j := ClaimFirstFree(s.inodeMap, s.inodeMapDirt);
    found, bi, bj := ok, i, j;
    if !ok {
      // iput on the zeroed slot: no device, so only the count drops
      fs.inodes := fs.inodes[e := ZERO_INODE];
      return NONE, found, bi, bj;
    }
    ClaimKeepsAllocating(fs.supers, fs.blocks, dev, i, j);
    fs.supers := fs.supers[sb := ClaimedInode(s, i, j)];
    var num := InodeOfBit(i, j);
    if num > s.d.ninodes {
      fs.inodes := fs.inodes[e := ZERO_INODE];
      return NONE, found, bi, bj;
    }
    fs.inodes := fs.inodes[e := FreshInode(dev, num, euid, egid, now)];
    r := e;
  }

  /**
   * `free_inode` on slot `x`: a slot without a device is just zeroed;
   * otherwise the inode's bit is cleared (an already-clear bit only
   * warns), its bitmap block dirtied, and the slot zeroed. Number 0, a
   * count above 1, remaining links and a number outside the bitmap are
   * fatal in the source, hence preconditions here.
   */
  method FreeInode(fs: FileSystem, x: nat)
    requires fs.Valid() && x < NR_INODE && fs.inodes[x].num >= 1
    requires var i := fs.inodes[x];
             i.dev != 0 ==> i.count <= 1 && i.d.nlinks == 0 && SuperOf(fs.supers, i.dev) != NONE &&
                            var s := fs.supers[SuperOf(fs.supers, i.dev)];
                            i.num <= s.d.ninodes && ZmapIndx(i.num) < |s.inodeMap|
    modifies fs
    ensures fs.Valid()
    ensures fs.inodes == old(fs.inodes)[x := ZERO_INODE]
    ensures fs.blocks == old(fs.blocks) && fs.lastInode == old(fs.lastInode)
    ensures fs.files == old(fs.files) && fs.rootDev == old(fs.rootDev)
    ensures old(fs.inodes[x].dev) == 0 ==> fs.supers == old(fs.supers)
    ensures var i := old(fs.inodes[x]); var sb := SuperOf(old(fs.supers), i.dev);
            i.dev != 0 ==> fs.supers == old(fs.supers)[sb := ReleasedInode(old(fs.supers[sb]), i.num)] &&
                           !InodeAllocated(fs.supers[sb], i.num)
  {
    var i := fs.inodes[x];
    if i.dev != 0 {
      var sb := fs.GetSuper(i.dev);
      fs.supers := fs.supers[sb := ReleasedInode(fs.supers[sb], i.num)];
    }
    fs.inodes := fs.inodes[x := ZERO_INODE];
  }
}
