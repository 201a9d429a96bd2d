/*
 * The bit-string primitives of fs/bitmap.c: `set_bit` (btsl/setb),
 * `clear_bit` (btrl/setnb) and `find_first_zero` (lodsl/notl/bsfl) on the
 * 1024-byte data of a bitmap buffer. Bit `nr` of a block is bit `nr % 8`
 * of byte `nr / 8`, which is also what the 32-bit word instructions
 * address on a little-endian machine.
 */
module Bits {
  import opened Layout

  /** Bit `i` of a natural number, counting from the least significant. */
  predicate BitOf(b: nat, i: nat)
    decreases i
  {
    if i == 0 then b % 2 == 1 else BitOf(b / 2, i - 1)
  }

  /** `b` with bit `i` set. */
  function SetB(b: nat, i: nat): (r: nat)
    decreases i
  {
    if i == 0 then b / 2 * 2 + 1 else 2 * SetB(b / 2, i - 1) + b % 2
  }

  /** `b` with bit `i` cleared. */
  function ClrB(b: nat, i: nat): (r: nat)
    decreases i
  {
    if i == 0 then b / 2 * 2 else 2 * ClrB(b / 2, i - 1) + b % 2
  }

  function Pow2(k: nat): (p: nat)
    ensures p >= 1
  {
    if k == 0 then 1 else 2 * Pow2(k - 1)
  }

  lemma {:induction false} SetBBits(b: nat, i: nat, j: nat)
    ensures BitOf(SetB(b, i), j) == (j == i || BitOf(b, j))
    decreases i
  {
    if i == 0 {
      if j > 0 {
        assert SetB(b, i) / 2 == b / 2;
      }
    } else {
      SetBBits(b / 2, i - 1, if j > 0 then j - 1 else 0);
      assert SetB(b, i) / 2 == SetB(b / 2, i - 1);
    }
  }

  lemma {:induction false} ClrBBits(b: nat, i: nat, j: nat)
    ensures BitOf(ClrB(b, i), j) == (j != i && BitOf(b, j))
    ensures ClrB(b, i) <= b
    decreases i
  {
    if i == 0 {
      if j > 0 {
        assert ClrB(b, i) / 2 == b / 2;
      }
    } else {
      ClrBBits(b / 2, i - 1, if j > 0 then j - 1 else 0);
      assert ClrB(b, i) / 2 == ClrB(b / 2, i - 1);
    }
  }

  /** Setting or clearing a bit below 8 keeps a byte a byte. */
  lemma {:induction false} SetBByte(b: byte, i: nat)
    requires i < 8
    ensures SetB(b, i) < 256
  {
    SetBBoundK(b, i, 8);
  }

  lemma {:induction false} SetBBoundK(b: nat, i: nat, k: nat)
    requires i < k && b < Pow2(k)
    ensures SetB(b, i) < Pow2(k)
    decreases i
  {
    if i == 0 {
      assert b / 2 < Pow2(k - 1);
    } else {
      assert b / 2 < Pow2(k - 1);
      SetBBoundK(b / 2, i - 1, k - 1);
    }
  }

  lemma {:induction false} Pow2Le(a: nat, c: nat)
    requires a <= c
    ensures Pow2(a) <= Pow2(c)
    decreases c
  {
    if a < c {
      Pow2Le(a, c - 1);
    }
  }

  predicate ByteBit(b: byte, i: nat)
    requires i < 8
  {
    BitOf(b, i)
  }

  /** Bit `nr` of a bitmap block. */
  predicate Bit(d: seq<byte>, nr: nat)
    requires nr < 8 * |d|
  {
    ByteBit(d[nr / 8], nr % 8)
  }

  /** A byte with all eight bits set is 255, and 255 has all eight bits set. */
  lemma FullByte(b: byte)
    ensures b == 255 ==> forall i :: 0 <= i < 8 ==> BitOf(b, i)
    ensures b != 255 ==> exists i :: 0 <= i < 8 && !BitOf(b, i)
  {
    assert Pow2(8) == 256;
    if b == 255 {
      forall i | 0 <= i < 8 ensures BitOf(b, i) {
        OnesBits(8, i);
      }
    } else if forall i :: 0 <= i < 8 ==> BitOf(b, i) {
      AllOnes(b, 8);
    }
  }

  lemma {:induction false} AllOnes(b: nat, k: nat)
    requires b < Pow2(k)
    requires forall i :: 0 <= i < k ==> BitOf(b, i)
    ensures b == Pow2(k) - 1
    decreases k
  {
    if k > 0 {
      assert BitOf(b, 0);
      forall i | 0 <= i < k - 1 ensures BitOf(b / 2, i) {
        assert BitOf(b, i + 1);
      }
      AllOnes(b / 2, k - 1);
    }
  }

  lemma {:induction false} OnesBits(k: nat, i: nat)
    requires i < k
    ensures BitOf(Pow2(k) - 1, i)
    decreases k
  {
    if i > 0 {
      assert (Pow2(k) - 1) / 2 == Pow2(k - 1) - 1;
      OnesBits(k - 1, i - 1);
    }
  }

  /**
   * `set_bit(nr, addr)`: sets bit `nr` and yields its previous value.
   */
  function SetBit(d: seq<byte>, nr: nat): (res: (bool, seq<byte>))
    requires nr < 8 * |d|
    ensures res.0 == Bit(d, nr)
    ensures |res.1| == |d|
    ensures forall k :: 0 <= k < 8 * |d| ==> Bit(res.1, k) == (k == nr || Bit(d, k))
  {
    var b := d[nr / 8];
    SetBByte(b, nr % 8);
    var nd := d[nr / 8 := SetB(b, nr % 8)];
    assert forall k :: 0 <= k < 8 * |d| ==> Bit(nd, k) == (k == nr || Bit(d, k)) by {
      forall k | 0 <= k < 8 * |d| ensures Bit(nd, k) == (k == nr || Bit(d, k)) {
        if k / 8 == nr / 8 {
          SetBBits(b, nr % 8, k % 8);
        }
      }
    }
    (ByteBit(b, nr % 8), nd)
  }

  /**
   * `clear_bit(nr, addr)`: clears bit `nr` and yields true exactly when the
   * bit was already clear (setnb).
   */
  function ClearBit(d: seq<byte>, nr: nat): (res: (bool, seq<byte>))
    requires nr < 8 * |d|
    ensures res.0 == !Bit(d, nr)
    ensures |res.1| == |d|
    ensures forall k :: 0 <= k < 8 * |d| ==> Bit(res.1, k) == (k != nr && Bit(d, k))
  {
    var b := d[nr / 8];
    ClrBBits(b, nr % 8, 0);
    var nd := d[nr / 8 := ClrB(b, nr % 8)];
    assert forall k :: 0 <= k < 8 * |d| ==> Bit(nd, k) == (k != nr && Bit(d, k)) by {
      forall k | 0 <= k < 8 * |d| ensures Bit(nd, k) == (k != nr && Bit(d, k)) {
        if k / 8 == nr / 8 {
          ClrBBits(b, nr % 8, k % 8);
        }
      }
    }
    (!ByteBit(b, nr % 8), nd)
  }

  lemma {:induction false} ClrSetB(b: nat, i: nat)
    requires !BitOf(b, i)
    ensures ClrB(SetB(b, i), i) == b
    decreases i
  {
    if i > 0 {
      assert SetB(b, i) / 2 == SetB(b / 2, i - 1);
      ClrSetB(b / 2, i - 1);
    }
  }

  /** Setting a clear bit and clearing it again restores the block. */
  lemma SetThenClear(d: seq<byte>, nr: nat)
    requires nr < 8 * |d| && !Bit(d, nr)
    ensures ClearBit(SetBit(d, nr).1, nr) == (false, d)
  {
    var s := SetBit(d, nr).1;
    assert s == d[nr / 8 := SetB(d[nr / 8], nr % 8)];
    ClrSetB(d[nr / 8], nr % 8);
    assert Bit(s, nr);
    assert ClearBit(s, nr).1 == s[nr / 8 := ClrB(s[nr / 8], nr % 8)] == d;
  }

  /** All 32 bits of word `w` (bytes 4w .. 4w+3) are set. */
  predicate WordFull(d: seq<byte>, w: nat)
    requires 4 * w + 4 <= |d|
  {
    d[4 * w] == 255 && d[4 * w + 1] == 255 && d[4 * w + 2] == 255 && d[4 * w + 3] == 255
  }

  /**
   * `find_first_zero`: the index of the lowest clear bit of the block, or
   * 8192 when every bit is set. Like the source, it skips whole 32-bit
   * words that are all ones and then looks for the lowest zero bit inside
   * the first word that is not.
   */
  method FindFirstZero(d: seq<byte>) returns (j: nat)
    requires |d| == BLOCK_SIZE
    ensures j <= BITS_PER_BLOCK
    ensures forall k :: 0 <= k < j ==> Bit(d, k)
    ensures j < BITS_PER_BLOCK ==> !Bit(d, j)
  {
    var w := 0;
    while w < 256 && WordFull(d, w)
      invariant 0 <= w <= 256
      invariant forall k :: 0 <= k < 32 * w ==> Bit(d, k)
    {
      forall k | 32 * w <= k < 32 * w + 32 ensures Bit(d, k) {
        FullByte(d[k / 8]);
      }
      w := w + 1;
    }
    if w == 256 {
      return BITS_PER_BLOCK;
    }
    // bsfl on the complemented word: the lowest zero bit of word w
    j := 32 * w;
    ghost var some: nat :| 32 * w <= some < 32 * w + 32 && !Bit(d, some) by {
      var byteIx: nat :| 4 * w <= byteIx < 4 * w + 4 && d[byteIx] != 255;
      FullByte(d[byteIx]);
      var i :| 0 <= i < 8 && !BitOf(d[byteIx], i);
      assert !Bit(d, 8 * byteIx + i);
    }
    while Bit(d, j)
      invariant 32 * w <= j <= some
      invariant forall k :: 0 <= k < j ==> Bit(d, k)
      decreases some - j
    {
      j := j + 1;
    }
  }
}
