/*
 * Selector arithmetic and descriptor bit-packing of include/linux/sched.h
 * and include/asm/system.h.
 *
 * A descriptor is the 8 bytes it occupies in the GDT, an LDT or the IDT,
 * in memory order (little-endian), following section 3.4.5 (segment
 * descriptors) and section 6.11 (IDT gate descriptors) of the Intel SDM,
 * Volume 3A. Descriptor tables are byte arrays written in place.
 */
module Desc {
  const NR_TASKS: nat := 64
  const HZ: nat := 100
  const FIRST_TSS_ENTRY: nat := 4
  const FIRST_LDT_ENTRY: nat := FIRST_TSS_ENTRY + 1
  const DESC_SIZE: nat := 8

  // ---------------------------------------------------------------------
  // Selectors
  // ---------------------------------------------------------------------

  /** `_TSS(n)`: the selector of task `n`'s TSS descriptor. */
  function Tss(n: nat): (sel: nat)
    requires n < NR_TASKS
    ensures sel % 8 == 0 && sel / 8 == FIRST_TSS_ENTRY + 2 * n
  {
    n * 16 + FIRST_TSS_ENTRY * 8
  }

  /** `_LDT(n)`: the selector of task `n`'s LDT descriptor. */
  function Ldt(n: nat): (sel: nat)
    requires n < NR_TASKS
    ensures sel % 8 == 0 && sel / 8 == FIRST_LDT_ENTRY + 2 * n
  {
    n * 16 + FIRST_LDT_ENTRY * 8
  }

  /** `str(n)`: the task number of a TSS selector, `(sel - 32) >> 4` on 32 bits. */
  function Str(sel: nat): (n: nat)
    requires sel < 0x1_0000_0000
  {
    ((sel - FIRST_TSS_ENTRY * 8) % 0x1_0000_0000) / 16
  }

  /** `str` inverts `_TSS`, and the TSS and LDT selectors of all tasks are distinct. */
  lemma StrInvertsTss(n: nat, m: nat)
    requires n < NR_TASKS && m < NR_TASKS
    ensures Str(Tss(n)) == n
    ensures Tss(n) != Ldt(m)
    ensures n != m ==> Tss(n) != Tss(m) && Ldt(n) != Ldt(m)
  {
  }

  /** `PAGE_ALIGN(n)`: `(n + 0xfff) & 0xfffff000` on 32 bits. */
  function PageAlign(n: nat): (r: nat)
    requires n < 0x1_0000_0000
  {
    ((n + 0xfff) % 0x1_0000_0000) / 4096 * 4096
  }

  /** Without overflow `PAGE_ALIGN` is the least multiple of 4096 not below `n`; above that it wraps to 0. */
  lemma PageAlignLeast(n: nat)
    requires n < 0x1_0000_0000
    ensures n <= 0x1_0000_0000 - 4096 ==>
              PageAlign(n) % 4096 == 0 && n <= PageAlign(n) < n + 4096
    ensures n > 0x1_0000_0000 - 4096 ==> PageAlign(n) == 0
  {
  }

  /** `CURRENT_TIME`: seconds since the epoch, from the boot time and the tick count. */
  function CurrentTime(startup: int, jiffies: nat): (r: int)
  {
    startup + jiffies / HZ
  }

  /** The clock advances by one second every `HZ` ticks and never goes back. */
  lemma CurrentTimeTicks(startup: int, j: nat, k: nat)
    ensures CurrentTime(startup, j + HZ) == CurrentTime(startup, j) + 1
    ensures j <= k ==> CurrentTime(startup, j) <= CurrentTime(startup, k)
    ensures CurrentTime(startup, j) - startup == j / HZ
  {
  }

  // ---------------------------------------------------------------------
  // Words and bytes
  // ---------------------------------------------------------------------

  /** The four bytes of a 32-bit store, in memory order. */
  function Bytes32(w: bv32): (b: seq<bv8>)
    ensures |b| == 4
  {
    [(w & 0xff) as bv8, ((w >> 8) & 0xff) as bv8, ((w >> 16) & 0xff) as bv8, (w >> 24) as bv8]
  }

  /** The 32-bit word at `d[off..off+4]`. */
  function Word(d: seq<bv8>, off: nat): (r: bv32)
    requires off + 4 <= |d|
  {
    (d[off + 3] as bv32 << 24) | (d[off + 2] as bv32 << 16) | (d[off + 1] as bv32 << 8) | d[off] as bv32
  }

  lemma WordBytes32(w: bv32)
    ensures Word(Bytes32(w), 0) == w
  {
  }

  // ---------------------------------------------------------------------
  // Base and limit of a segment descriptor
  // ---------------------------------------------------------------------

  /** `_get_base`: base bits 0-15 from bytes 2-3, 16-23 from byte 4, 24-31 from byte 7. */
  function GetBase(d: seq<bv8>): (base: bv32)
    requires |d| == DESC_SIZE
    ensures base & 0xff == d[2] as bv32 && (base >> 8) & 0xff == d[3] as bv32
    ensures (base >> 16) & 0xff == d[4] as bv32 && base >> 24 == d[7] as bv32
  {
    (d[7] as bv32 << 24) | (d[4] as bv32 << 16) | (d[3] as bv32 << 8) | d[2] as bv32
  }

  /** The 20-bit limit: bytes 0-1 and the low nibble of byte 6. */
  function LimitOf(d: seq<bv8>): (r: bv32)
    requires |d| == DESC_SIZE
  {
    ((d[6] & 0x0f) as bv32 << 16) | (d[1] as bv32 << 8) | d[0] as bv32
  }

  /** `_set_base`: the base goes to bytes 2-3, 4 and 7; nothing else changes. */
  function SetBase(d: seq<bv8>, base: bv32): (r: seq<bv8>)
    requires |d| == DESC_SIZE
    ensures |r| == DESC_SIZE
    ensures GetBase(r) == base
    ensures r[0] == d[0] && r[1] == d[1] && r[5] == d[5] && r[6] == d[6]
  {
    d[2 := (base & 0xff) as bv8][3 := ((base >> 8) & 0xff) as bv8]
     [4 := ((base >> 16) & 0xff) as bv8][7 := (base >> 24) as bv8]
  }

  /**
   * `_set_limit`: limit bits 0-15 go to bytes 0-1, and bits 16-23 are
   * OR'd into byte 6 after its low nibble is cleared.
   */
  function SetLimit(d: seq<bv8>, limit: bv32): (r: seq<bv8>)
    requires |d| == DESC_SIZE
    ensures |r| == DESC_SIZE
    ensures forall k :: 2 <= k < 6 || k == 7 ==> r[k] == d[k]
  {
    d[0 := (limit & 0xff) as bv8][1 := ((limit >> 8) & 0xff) as bv8]
     [6 := ((limit >> 16) & 0xff) as bv8 | (d[6] & 0xf0)]
  }

  /**
   * A limit below 2^20 reads back and keeps the flags nibble of byte 6;
   * limit bits 20-23 are OR'd into the flags.
   */
  lemma SetLimitFields(d: seq<bv8>, limit: bv32)
    requires |d| == DESC_SIZE
    ensures SetLimit(d, limit)[6] & 0xf0 == (d[6] & 0xf0) | (((limit >> 16) & 0xf0) as bv8)
    ensures limit < 0x10_0000 ==> LimitOf(SetLimit(d, limit)) == limit
    ensures GetBase(SetLimit(d, limit)) == GetBase(d)
  {
  }

  /** `set_limit(ldt, limit)`: the limit is given in bytes and stored in pages, `(limit-1) >> 12`. */
  function SetLimitPages(d: seq<bv8>, limit: bv32): (r: seq<bv8>)
    requires |d| == DESC_SIZE
    ensures |r| == DESC_SIZE
  {
    SetLimit(d, (limit - 1) >> 12)
  }

  /** With 4 KB granularity the stored limit covers at least `limit` bytes, and less than a page more. */
  lemma SetLimitPagesCovers(d: seq<bv8>, limit: bv32)
    requires limit >= 1 && |d| == DESC_SIZE
    ensures var end := (LimitOf(SetLimitPages(d, limit)) as bv64 + 1) << 12;
            limit as bv64 <= end < limit as bv64 + 4096
  {
    var f := (limit - 1) >> 12;
    SetLimitFields(d, f);
  }

  // ---------------------------------------------------------------------
  // Gates, TSS/LDT descriptors and segment descriptors
  // ---------------------------------------------------------------------

  /**
   * `_set_gate`: the low dword is `0x00080000 | (addr & 0xffff)` and the
   * high dword is `addr & 0xffff0000` with the 16-bit immediate
   * `0x8000 + (dpl << 13) + (type << 8)` in its low half.
   */
  function GateBytes(gtype: bv32, dpl: bv32, addr: bv32): (g: seq<bv8>)
    ensures |g| == DESC_SIZE
  {
    var lo := 0x0008_0000 | (addr & 0xffff);
    var hi := (addr & 0xffff_0000) | ((0x8000 + (dpl << 13) + (gtype << 8)) & 0xffff);
    Bytes32(lo) + Bytes32(hi)
  }

  /** The offset of a gate, from bytes 0-1 and 6-7. */
  function GateOffset(g: seq<bv8>): (r: bv32)
    requires |g| == DESC_SIZE
  {
    (g[7] as bv32 << 24) | (g[6] as bv32 << 16) | (g[1] as bv32 << 8) | g[0] as bv32
  }

  /**
   * A gate holds the handler address, kernel code selector 0x0008, a zero
   * byte 4, and in byte 5 the present bit, the privilege level and the type.
   */
  lemma GateFields(gtype: bv32, dpl: bv32, addr: bv32)
    requires gtype < 32 && dpl < 4
    ensures var g := GateBytes(gtype, dpl, addr);
            GateOffset(g) == addr && g[2] == 0x08 && g[3] == 0 && g[4] == 0 &&
            g[5] as bv32 == 0x80 | (dpl << 5) | gtype
  {
  }

  /** `set_intr_gate`, `set_trap_gate` and `set_system_gate` give access bytes 0x8E, 0x8F and 0xEF. */
  lemma GateKinds(addr: bv32)
    ensures GateBytes(14, 0, addr)[5] == 0x8E
    ensures GateBytes(15, 0, addr)[5] == 0x8F
    ensures GateBytes(15, 3, addr)[5] == 0xEF
  {
    GateFields(14, 0, addr);
    GateFields(15, 0, addr);
    GateFields(15, 3, addr);
  }

  const TSS_TYPE: bv8 := 0x89
  const LDT_TYPE: bv8 := 0x82

  /**
   * `_set_tssldt_desc`: limit 104 in bytes 0-1, the base in bytes 2-3, 4
   * and 7, the type byte in byte 5 and 0 in byte 6.
   */
  function TssLdtBytes(addr: bv32, dtype: bv8): (d: seq<bv8>)
    ensures |d| == DESC_SIZE
  {
    [104, 0, (addr & 0xff) as bv8, ((addr >> 8) & 0xff) as bv8,
     ((addr >> 16) & 0xff) as bv8, dtype, 0, (addr >> 24) as bv8]
  }

  lemma TssLdtFields(addr: bv32, dtype: bv8)
    ensures var d := TssLdtBytes(addr, dtype);
            GetBase(d) == addr && LimitOf(d) == 104 && d[5] == dtype && d[6] == 0
  {
  }

  /** The two words `_set_seg_desc` computes: flags, type and the split base, and base/limit low halves. */
  function SegWords(stype: bv32, dpl: bv32, base: bv32, limit: bv32): (r: (bv32, bv32))
  {
    ((base & 0xff00_0000) | ((base & 0x00ff_0000) >> 16) | (limit & 0xf_0000) |
     (dpl << 13) | 0x0040_8000 | (stype << 8),
     ((base & 0x0000_ffff) << 16) | (limit & 0x0_ffff))
  }

  /** `_set_seg_desc` as written: the flags word is stored first, at the lower address. */
  function SegDescAsWritten(stype: bv32, dpl: bv32, base: bv32, limit: bv32): (d: seq<bv8>)
    ensures |d| == DESC_SIZE
  {
    var (w0, w1) := SegWords(stype, dpl, base, limit);
    Bytes32(w0) + Bytes32(w1)
  }

  /** The layout of the Intel SDM: the base/limit word at the lower address, the flags word above it. */
  function SegDesc(stype: bv32, dpl: bv32, base: bv32, limit: bv32): (d: seq<bv8>)
    ensures |d| == DESC_SIZE
  {
    var (w0, w1) := SegWords(stype, dpl, base, limit);
    Bytes32(w1) + Bytes32(w0)
  }

  /** With the words in SDM order the descriptor decodes to the base, the limit, and the access byte. */
  lemma SegDescFields(stype: bv32, dpl: bv32, base: bv32, limit: bv32)
    requires stype < 16 && dpl < 4
    ensures var d := SegDesc(stype, dpl, base, limit);
            GetBase(d) == base && LimitOf(d) == limit & 0xf_ffff &&
            d[5] as bv32 == 0x80 | (dpl << 5) | stype && d[6] & 0xf0 == 0x40
  {
  }

  /** As written, a descriptor for base 1 reads back base 0x40: the two words are swapped. */
  lemma SegDescAsWrittenSwapsWords()
    ensures GetBase(SegDescAsWritten(0, 0, 1, 0)) == 0x40
    ensures GetBase(SegDesc(0, 0, 1, 0)) == 1
  {
    SegDescFields(0, 0, 1, 0);
  }

  // ---------------------------------------------------------------------
  // Writes into descriptor tables
  // ---------------------------------------------------------------------

  /** `t` with `d` written at `off`. */
  function Put(t: seq<bv8>, off: nat, d: seq<bv8>): (r: seq<bv8>)
    requires off + |d| <= |t|
    ensures |r| == |t| && r[off..off + |d|] == d
    ensures forall k :: 0 <= k < |t| && !(off <= k < off + |d|) ==> r[k] == t[k]
  {
    t[..off] + d + t[off + |d|..]
  }

  /** The stores of a descriptor-writing macro: the bytes `d` at `off`. */
  method Store(a: array<bv8>, off: nat, d: seq<bv8>)
    requires off + |d| <= a.Length
    modifies a
    ensures a[..] == Put(old(a[..]), off, d)
  {
    var k := 0;
    while k < |d|
      invariant 0 <= k <= |d|
      invariant forall j :: 0 <= j < a.Length && !(off <= j < off + k) ==> a[j] == old(a[j])
      invariant forall j :: 0 <= j < k ==> a[off + j] == d[j]
    {
      a[off + k] := d[k];
      k := k + 1;
    }
    assert a[..] == Put(old(a[..]), off, d);
  }

  /** `_set_gate` on IDT entry `n`. */
  method SetGate(idt: array<bv8>, n: nat, gtype: bv32, dpl: bv32, addr: bv32)
    requires DESC_SIZE * (n + 1) <= idt.Length
    modifies idt
    ensures idt[..] == Put(old(idt[..]), DESC_SIZE * n, GateBytes(gtype, dpl, addr))
  {
    Store(idt, DESC_SIZE * n, GateBytes(gtype, dpl, addr));
  }

  /** `set_intr_gate`: type 14, privilege 0. */
  method SetIntrGate(idt: array<bv8>, n: nat, addr: bv32)
    requires DESC_SIZE * (n + 1) <= idt.Length
    modifies idt
    ensures idt[..] == Put(old(idt[..]), DESC_SIZE * n, GateBytes(14, 0, addr))
  {
    SetGate(idt, n, 14, 0, addr);
  }

  /** `set_trap_gate`: type 15, privilege 0. */
  method SetTrapGate(idt: array<bv8>, n: nat, addr: bv32)
    requires DESC_SIZE * (n + 1) <= idt.Length
    modifies idt
    ensures idt[..] == Put(old(idt[..]), DESC_SIZE * n, GateBytes(15, 0, addr))
  {
    SetGate(idt, n, 15, 0, addr);
  }

  /** `set_system_gate`: type 15, privilege 3, so user code may use it. */
  method SetSystemGate(idt: array<bv8>, n: nat, addr: bv32)
    requires DESC_SIZE * (n + 1) <= idt.Length
    modifies idt
    ensures idt[..] == Put(old(idt[..]), DESC_SIZE * n, GateBytes(15, 3, addr))
  {
    SetGate(idt, n, 15, 3, addr);
  }

  /** `set_tss_desc(nr, addr)`: GDT entry `4 + 2*nr` becomes a TSS descriptor (type 0x89). */
  method SetTssDesc(gdt: array<bv8>, nr: nat, addr: bv32)
    requires DESC_SIZE * (FIRST_TSS_ENTRY + 2 * nr + 1) <= gdt.Length
    modifies gdt
    ensures gdt[..] == Put(old(gdt[..]), DESC_SIZE * (FIRST_TSS_ENTRY + 2 * nr), TssLdtBytes(addr, TSS_TYPE))
  {
    Store(gdt, DESC_SIZE * (FIRST_TSS_ENTRY + 2 * nr), TssLdtBytes(addr, TSS_TYPE));
  }

  /** `set_ldt_desc(nr, addr)`: GDT entry `5 + 2*nr` becomes an LDT descriptor (type 0x82). */
  method SetLdtDesc(gdt: array<bv8>, nr: nat, addr: bv32)
    requires DESC_SIZE * (FIRST_LDT_ENTRY + 2 * nr + 1) <= gdt.Length
    modifies gdt
    ensures gdt[..] == Put(old(gdt[..]), DESC_SIZE * (FIRST_LDT_ENTRY + 2 * nr), TssLdtBytes(addr, LDT_TYPE))
  {
    Store(gdt, DESC_SIZE * (FIRST_LDT_ENTRY + 2 * nr), TssLdtBytes(addr, LDT_TYPE));
  }

  /** The selector of task `nr`'s TSS names the entry `set_tss_desc` writes, and likewise for the LDT. */
  lemma SelectorsNameEntries(nr: nat)
    requires nr < NR_TASKS
    ensures Tss(nr) == DESC_SIZE * (FIRST_TSS_ENTRY + 2 * nr)
    ensures Ldt(nr) == DESC_SIZE * (FIRST_LDT_ENTRY + 2 * nr)
  {
  }

  /** `set_base` on the descriptor at `off`. */
  method SetBaseAt(a: array<bv8>, off: nat, base: bv32)
    requires off + DESC_SIZE <= a.Length
    modifies a
    ensures a[..] == Put(old(a[..]), off, SetBase(old(a[off..off + DESC_SIZE]), base))
  {
    Store(a, off, SetBase(a[off..off + DESC_SIZE], base));
  }

  /** `set_limit` on the descriptor at `off`, with the limit in bytes. */
  method SetLimitAt(a: array<bv8>, off: nat, limit: bv32)
    requires off + DESC_SIZE <= a.Length
    modifies a
    ensures a[..] == Put(old(a[..]), off, SetLimitPages(old(a[off..off + DESC_SIZE]), limit))
  {
    Store(a, off, SetLimitPages(a[off..off + DESC_SIZE], limit));
  }

  /** `get_base` of the descriptor at `off`. */
  function GetBaseAt(a: array<bv8>, off: nat): (r: bv32)
    requires off + DESC_SIZE <= a.Length
    reads a
  {
    GetBase(a[off..off + DESC_SIZE])
  }

  /** `get_base` after `set_base` on the same descriptor gives the base back. */
  method SetThenGetBase(a: array<bv8>, off: nat, base: bv32) returns (b: bv32)
    requires off + DESC_SIZE <= a.Length
    modifies a
    ensures b == base
    ensures forall k :: 0 <= k < a.Length && k - off !in {2, 3, 4, 7} ==> a[k] == old(a[k])
  {
    SetBaseAt(a, off, base);
    assert a[off..off + DESC_SIZE] == SetBase(old(a[off..off + DESC_SIZE]), base);
    b := GetBaseAt(a, off);
  }
}
