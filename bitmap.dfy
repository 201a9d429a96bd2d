/*
 * The bitmap arithmetic of fs/bitmap.c on the contents of a device's
 * inode or zone bitmap blocks: the scan for the first clear bit across
 * blocks, claiming and releasing a bit, and the mapping between bit
 * numbers and zone numbers.
 */
module Bitmap {
  import opened Layout
  import opened Bits

  /** Every block of the bitmap is a full 1024-byte block. */
  ghost predicate MapsOk(maps: seq<seq<byte>>)
  {
    forall b :: 0 <= b < |maps| ==> |maps[b]| == BLOCK_SIZE
  }

  /** All 8192 bits of a bitmap block are set. */
  ghost predicate Full(d: seq<byte>)
    requires |d| == BLOCK_SIZE
  {
    forall k :: 0 <= k < BITS_PER_BLOCK ==> Bit(d, k)
  }

  /** Bit `j` of block `i` is the first clear bit of the bitmap, blocks taken in order. */
  ghost predicate FirstClear(maps: seq<seq<byte>>, i: nat, j: nat)
    requires MapsOk(maps)
  {
    i < |maps| && j < BITS_PER_BLOCK && !Bit(maps[i], j) &&
    (forall k :: 0 <= k < j ==> Bit(maps[i], k)) &&
    (forall b :: 0 <= b < i ==> Full(maps[b]))
  }

  /**
   * The scan of `new_block` and `new_inode`: `find_first_zero` on each
   * block in turn until one has a clear bit. `i == |maps|` when every
   * block is full.
   */
  method FirstFree(maps: seq<seq<byte>>) returns (i: nat, j: nat)
    requires MapsOk(maps)
    ensures i <= |maps|
    ensures i < |maps| ==> FirstClear(maps, i, j)
    ensures i == |maps| ==> forall b :: 0 <= b < |maps| ==> Full(maps[b])
  {
    i, j := 0, BITS_PER_BLOCK;
    while i < |maps|
      invariant i <= |maps|
      invariant forall b :: 0 <= b < i ==> Full(maps[b])
    {
      j := FindFirstZero(maps[i]);
      if j < BITS_PER_BLOCK {
        return;
      }
      i := i + 1;
    }
  }

  /**
   * Claim the first clear bit: `set_bit` on it and mark its block dirty.
   * With no clear bit nothing changes. Finding the bit already set is
   * fatal in the source; here it cannot happen.
   */
  method ClaimFirstFree(maps: seq<seq<byte>>, dirt: seq<bool>)
    returns (maps': seq<seq<byte>>, dirt': seq<bool>, found: bool, i: nat, j: nat)
    requires MapsOk(maps) && |dirt| == |maps|
    ensures MapsOk(maps') && |maps'| == |maps| && |dirt'| == |dirt|
    ensures !found ==> maps' == maps && dirt' == dirt &&
                       forall b :: 0 <= b < |maps| ==> Full(maps[b])
    ensures found ==> FirstClear(maps, i, j) &&
                      maps' == maps[i := SetBit(maps[i], j).1] && dirt' == dirt[i := true]
  {
    i, j := FirstFree(maps);
    if i == |maps| {
      return maps, dirt, false, i, j;
    }
    var (was, block) := SetBit(maps[i], j);
    if was {
      assert false;
    }
    maps', dirt', found := maps[i := block], dirt[i := true], true;
  }

  /** After the claim, the bit is set and every other bit of the bitmap is as before. */
  lemma ClaimSetsOnlyThatBit(maps: seq<seq<byte>>, i: nat, j: nat, b: nat, k: nat)
    requires MapsOk(maps) && FirstClear(maps, i, j)
    requires b < |maps| && k < BITS_PER_BLOCK
    ensures var m := maps[i := SetBit(maps[i], j).1];
            MapsOk(m) && Bit(m[b], k) == ((b == i && k == j) || Bit(maps[b], k))
  {
  }

  /**
   * Clear bit `bit` of block `idx` (`clear_bit`) and mark the block dirty;
   * `wasClear` is the value `clear_bit` returns.
   */
  function ReleaseBit(maps: seq<seq<byte>>, dirt: seq<bool>, idx: nat, bit: nat)
    : (r: (seq<seq<byte>>, seq<bool>, bool))
    requires MapsOk(maps) && |dirt| == |maps| && idx < |maps| && bit < BITS_PER_BLOCK
    ensures MapsOk(r.0) && |r.0| == |maps| && |r.1| == |dirt|
    ensures r.2 == !Bit(maps[idx], bit)
    ensures !Bit(r.0[idx], bit) && r.1[idx]
    ensures forall b, k :: 0 <= b < |maps| && 0 <= k < BITS_PER_BLOCK && (b != idx || k != bit) ==>
              Bit(r.0[b], k) == Bit(maps[b], k)
  {
    var (wasClear, block) := ClearBit(maps[idx], bit);
    (maps[idx := block], dirt[idx := true], wasClear)
  }

  /** Releasing a bit just claimed gives the bitmap back. */
  lemma ClaimThenRelease(maps: seq<seq<byte>>, dirt: seq<bool>, i: nat, j: nat)
    requires MapsOk(maps) && |dirt| == |maps| && FirstClear(maps, i, j)
    ensures var m := maps[i := SetBit(maps[i], j).1];
            ReleaseBit(m, dirt, i, j) == (maps, dirt[i := true], false)
  {
    SetThenClear(maps[i], j);
    assert maps[i := SetBit(maps[i], j).1][i := maps[i]] == maps;
  }

  // ---------------------------------------------------------------------
  // Zone numbers and inode numbers
  // ---------------------------------------------------------------------

  /**
   * Bit `j` of zone-bitmap block `i` stands for zone
   * `i * 8192 + j + s_firstdatazone - 1`; bit 0 is never free, so the
   * first data zone is bit 1.
   */
  function ZoneOfBit(i: nat, j: nat, firstDataZone: int): (r: int)
  {
    i * BITS_PER_BLOCK + j + firstDataZone - 1
  }

  /** `block -= s_firstdatazone - 1`: the bit number of a zone. */
  function BitOfZone(zone: int, firstDataZone: int): (r: int)
  {
    zone - (firstDataZone - 1)
  }

  /** A claimed bit's zone maps back to the same block and bit when it is freed. */
  lemma ZoneBitRoundTrip(i: nat, j: nat, firstDataZone: int)
    requires j < BITS_PER_BLOCK
    ensures var n := BitOfZone(ZoneOfBit(i, j, firstDataZone), firstDataZone);
            n >= 0 && ZmapIndx(n) == i && MaskIntended(n) == j
  {
  }

  /** Every zone from the first data zone on is the zone of exactly one bit. */
  lemma BitZoneRoundTrip(zone: int, firstDataZone: int)
    requires zone >= firstDataZone
    ensures var n := BitOfZone(zone, firstDataZone);
            n >= 1 && ZoneOfBit(ZmapIndx(n), MaskIntended(n), firstDataZone) == zone
  {
  }

  /**
   * The zone `new_block` computes as written: with `BLCK_BITS`
   * unparenthesised, `i * BLCK_BITS + s_firstdatazone - 1` is
   * `(i * 1024) << (s_firstdatazone + 2)`, 32-bit overflow aside.
   */
  function ZoneOfBitAsWritten(i: nat, j: nat, firstDataZone: nat): (r: int)
  {
    j + (i * BLOCK_SIZE) * Pow2(firstDataZone + 2)
  }

  /**
   * As written, the first clear bit 5 of block 0 on a device whose data
   * zones start at 20 is handed out as zone 5 (a metadata block) instead
   * of zone 24, and freeing zone 5 then falls outside the data zones.
   */
  lemma NewBlockZoneAsWritten()
    ensures ZoneOfBitAsWritten(0, 5, 20) == 5
    ensures ZoneOfBit(0, 5, 20) == 24
    ensures ZoneOfBitAsWritten(0, 5, 20) < 20
  {
  }

  /** The bit `free_block` and `free_inode` clear as written: `n & BLCK_MASK`, i.e. `n & 4096`. */
  function FreeBitAsWritten(n: nat): (bit: nat)
    ensures bit == 0 || bit == 4096
  {
    MaskAsWritten(n)
  }

  /** As written, freeing bit 5 clears bit 0 (which is never free) instead. */
  lemma FreeBitAsWrittenWrong()
    ensures FreeBitAsWritten(5) == 0 && MaskIntended(5) == 5
    ensures FreeBitAsWritten(8197) == 0 && MaskIntended(8197) == 5
  {
  }

  /** `j += i * BLCK_BITS` in `new_inode` parses as `(i * 1024) << 3`, which is `i * 8192`. */
  function InodeOfBit(i: nat, j: nat): (inr: nat)
    ensures j < BITS_PER_BLOCK ==> ZmapIndx(inr) == i && MaskIntended(inr) == j
  {
    j + i * BITS_PER_BLOCK
  }
}
