/** How an AArch64 processor with 4 KiB pages and 48-bit virtual addresses finds a physical address: the translation
    table walk of the Arm Architecture Reference Manual for A-profile, section D8. */
module Mmu {
  import opened Arith

  /** The walk ends in a fault, or at a physical address, by the entry that it came to last. */
  datatype Access = Fault | To(phys: int, entry: int)

  /** The `n` bits of `x` from bit `from` on. */
  function Bits(x: int, from: nat, n: nat): int { x / Pow2(from) % Pow2(n) }

  /** Entry `i` of the table at physical address `page`. */
  function Word(memory: map<int, seq<int>>, page: int, i: int): int
  {
    if page in memory && 0 <= i < |memory[page]| then memory[page][i] else 0
  }

  /** The access ends at a page or block of 2^k bytes, unless its access flag is clear. */
  function Reach(entry: int, virt: int, k: nat): Access
    requires k <= 52
  {
    if Bits(entry, 10, 1) == 0 then Fault
    else To(Bits(entry, k, 52 - k) * Pow2(k) + Bits(virt, 0, k), entry)
  }

  /** The walk from the table at `table` on, which is at level `level` of 0 to 3. */
  function Lookup(memory: map<int, seq<int>>, table: int, virt: int, level: nat): Access
    requires level <= 3
    decreases 3 - level
  {
    var from := 39 - 9 * level;
    var e := Word(memory, table, Bits(virt, from, 9));
    if Bits(e, 0, 1) == 0 then Fault
    else if Bits(e, 1, 1) == 1 then
      if level == 3 then Reach(e, virt, from) else Lookup(memory, Bits(e, 12, 40) * Pow2(12), virt, level + 1)
    else if 1 <= level <= 2 then Reach(e, virt, from)
    else Fault
  }

  function Translate(memory: map<int, seq<int>>, root: int, virt: int): Access { Lookup(memory, root, virt, 0) }

  // What the attributes of an entry allow.

  predicate UserReads(entry: int) { Bits(entry, 6, 1) == 1 }

  predicate UserWrites(entry: int) { Bits(entry, 6, 1) == 1 && Bits(entry, 7, 1) == 0 }

  predicate KernelWrites(entry: int) { Bits(entry, 7, 1) == 0 }

  predicate UserExecutes(entry: int) { Bits(entry, 54, 1) == 0 }

  predicate KernelExecutes(entry: int) { Bits(entry, 53, 1) == 0 }

  /** The powers of two that addresses and entries are made of. */
  lemma Powers()
    ensures Pow2(0) == 1 && Pow2(1) == 2 && Pow2(2) == 4 && Pow2(6) == 0x40 && Pow2(7) == 0x80 && Pow2(9) == 0x200
    ensures Pow2(10) == 0x400 && Pow2(12) == 0x1000 && Pow2(21) == 0x20_0000 && Pow2(30) == 0x4000_0000
    ensures Pow2(39) == 0x80_0000_0000 && Pow2(40) == 0x100_0000_0000
    ensures Pow2(53) == 0x20_0000_0000_0000 && Pow2(54) == 0x40_0000_0000_0000
    ensures Pow2(22) == 0x40_0000 && Pow2(31) == 0x8000_0000
  {
    assert Pow2(10) == 0x400;
    Pow2Add(10, 10);
    assert Pow2(20) == 0x10_0000;
    Pow2Add(20, 1);
    Pow2Add(20, 2);
    Pow2Add(20, 10);
    Pow2Add(30, 1);
    Pow2Add(30, 9);
    Pow2Add(30, 10);
    Pow2Add(10, 2);
    Pow2Add(40, 12);
    assert Pow2(52) == 0x10_0000_0000_0000;
    Pow2Add(52, 1);
    Pow2Add(52, 2);
  }
}
