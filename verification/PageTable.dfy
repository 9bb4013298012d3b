/** The four-level page table of AArch64 (src/arch/aarch64/mem/paging.cpp). */
module PageTable {
  import opened Arith
  import opened Mmu
  import opened Seqs

  const ENTRIES: int := 512
  const PAGE: int := 0x1000

  datatype PageFlags = PageFlags(read: bool, write: bool, execute: bool, user: bool)

  // ---------------------------------------------------------------- entries

  /** Bits 12 to 51: `entry & PAGE_ADDR_MASK`. */
  function Address(entry: int): int { entry / 0x1000 % 0x100_0000_0000 * 0x1000 }

  predicate Present(entry: int) { entry % 2 == 1 }

  predicate TableBit(entry: int) { entry / 2 % 2 == 1 }

  /** Present, and points to a table; or, on the last level, a page. */
  predicate IsTable(entry: int) { Present(entry) && TableBit(entry) }

  /** A page address that fits into an entry. */
  predicate Aligned(phys: int) { 0 <= phys < 0x10_0000_0000_0000 && phys % 0x1000 == 0 }

  function AccessBits(flags: PageFlags): (ap: int)
    ensures 0 <= ap < 4
  {
    if flags.user then (if flags.write then 1 else if flags.read then 3 else 0)
    else if flags.write then 0 else 2
  }

  /** The bits below the address: access flag, outer shareable, access permissions, attribute index, page, present. The
      bits do not overlap, so the sum is the disjunction. */
  function LowBits(flags: PageFlags, cache: int): int
  {
    0x400 + 2 * 0x100 + AccessBits(flags) * 0x40 + cache * 4 + 2 + 1
  }

  /** The bits above the address: execute-never for users or for the kernel. */
  function HighBits(flags: PageFlags): int
  {
    if flags.execute then 0 else if flags.user then 0x40_0000_0000_0000 else 0x20_0000_0000_0000
  }

  function AttributeBits(flags: PageFlags, cache: int): int { HighBits(flags) + LowBits(flags, cache) }

  function PageEntry(phys: int, flags: PageFlags, cache: int): int { phys + AttributeBits(flags, cache) }

  predicate CacheMode(cache: int) { 0 <= cache < 8 }

  lemma AddressOf(h: int, k: int, low: int)
    requires 0 <= k < 0x100_0000_0000 && 0 <= low < 0x1000
    ensures Address(0x20_0000_0000_0000 * h + 0x1000 * k + low) == 0x1000 * k
  {
    var page := 0x200_0000_0000 * h + k;
    assert 0x20_0000_0000_0000 * h + 0x1000 * k + low == 0x1000 * page + low;
    DivModUnique(0x1000 * page + low, 0x1000, page, low);
    DivModUnique(page, 0x100_0000_0000, 2 * h, k);
  }

  lemma PageBits(h: int, k: int, low: int)
    requires low % 4 == 3
    ensures IsTable(0x20_0000_0000_0000 * h + 0x1000 * k + low)
  {
    var q := 0x8_0000_0000_0000 * h + 0x400 * k + low / 4;
    assert 0x20_0000_0000_0000 * h + 0x1000 * k + low == (2 * q + 1) * 2 + 1;
    DivModUnique((2 * q + 1) * 2 + 1, 2, 2 * q + 1, 1);
    DivModUnique(2 * q + 1, 2, q, 1);
  }

  /** An entry gives back the address it was made of. */
  lemma EntryAddress(phys: int, flags: PageFlags, cache: int)
    requires Aligned(phys) && CacheMode(cache)
    ensures Address(PageEntry(phys, flags, cache)) == phys && IsTable(PageEntry(phys, flags, cache))
  {
    var h := if flags.execute then 0 else if flags.user then 2 else 1;
    var low := LowBits(flags, cache);
    assert low == 4 * (384 + AccessBits(flags) * 16 + cache) + 3;
    AddressOf(h, phys / 0x1000, low);
    PageBits(h, phys / 0x1000, low);
  }

  lemma TableEntry(f: int)
    requires Aligned(f)
    ensures IsTable(f + 3) && Address(f + 3) == f
  {
    AddressOf(0, f / 0x1000, 3);
    PageBits(0, f / 0x1000, 3);
  }

  lemma AddressAligned(entry: int)
    requires 0 <= entry
    ensures Aligned(Address(entry))
  {
  }

  /** Bitwise or. */
  function Or(a: nat, b: nat): nat
  {
    if a == 0 then b else 2 * Or(a / 2, b / 2) + if a % 2 == 1 || b % 2 == 1 then 1 else 0
  }

  /** Numbers without common bits: `or` adds them. */
  lemma {:induction false} OrShifted(q: nat, b: nat, k: nat)
    requires b < Pow2(k)
    ensures Or(q * Pow2(k), b) == q * Pow2(k) + b
    decreases k
  {
    if k == 0 {
      OrZero(q);
    } else {
      var s := q * Pow2(k - 1);
      assert q * Pow2(k) == 2 * s;
      OrShifted(q, b / 2, k - 1);
    }
  }

  lemma {:induction false} OrZero(a: nat)
    ensures Or(a, 0) == a
  {
    if a > 0 {
      OrZero(a / 2);
    }
  }

  lemma OrSum(a: nat, b: nat)
    requires a % 0x4000_0000 == 0 && b < 0x4000_0000
    ensures Or(a, b) == a + b
  {
    assert Pow2(10) == 1024;
    Pow2Add(10, 10);
    Pow2Add(20, 10);
    OrShifted(a / 0x4000_0000, b, 30);
  }

  lemma OrSumBlock(a: nat, b: nat)
    requires a % 0x20_0000 == 0 && b < 0x20_0000
    ensures Or(a, b) == a + b
  {
    Powers();
    OrShifted(a / 0x20_0000, b, 21);
  }

  function Permissions(entry: int): int { entry / 0x40 % 4 }

  lemma LowPermissions(k: int, low: int)
    ensures Permissions(0x1000 * k + low) == low / 0x40 % 4
  {
    DivModShift(0x40 * k, low, 0x40);
    DivModShift(0x10 * k, low / 0x40, 4);
  }

  lemma LowCache(k: int, low: int)
    ensures (0x1000 * k + low) / 4 % 8 == low / 4 % 8
  {
    DivModShift(0x400 * k, low, 4);
    DivModShift(0x80 * k, low / 4, 8);
  }

  lemma LowFields(flags: PageFlags, cache: int)
    requires CacheMode(cache)
    ensures LowBits(flags, cache) / 0x40 % 4 == AccessBits(flags) && LowBits(flags, cache) / 4 % 8 == cache
  {
  }

  lemma EntryFields(phys: int, flags: PageFlags, cache: int)
    requires Aligned(phys) && CacheMode(cache)
    ensures var e := PageEntry(phys, flags, cache); Permissions(e) == AccessBits(flags) && e / 4 % 8 == cache
  {
    var base := phys + HighBits(flags);
    assert base == 0x1000 * (base / 0x1000);
    LowFields(flags, cache);
    LowPermissions(base / 0x1000, LowBits(flags, cache));
    LowCache(base / 0x1000, LowBits(flags, cache));
  }

  /** What the processor makes of the permission bits: 1 lets everyone write, 3 lets everyone read, 2 lets the kernel
      read and 0 lets the kernel write. */
  lemma EntryPermissions(phys: int, flags: PageFlags, cache: int)
    requires Aligned(phys) && CacheMode(cache)
    ensures var e := PageEntry(phys, flags, cache);
      && (Permissions(e) == 1 <==> flags.user && flags.write)
      && (Permissions(e) == 3 <==> flags.user && !flags.write && flags.read)
      && (Permissions(e) == 2 <==> !flags.user && !flags.write)
      && e / 4 % 8 == cache
  {
    EntryFields(phys, flags, cache);
  }

  lemma EntryExecute(phys: int, flags: PageFlags, cache: int)
    requires Aligned(phys) && CacheMode(cache)
    ensures var e := PageEntry(phys, flags, cache);
      && (e / 0x40_0000_0000_0000 % 2 == 1 <==> flags.user && !flags.execute)
      && (e / 0x20_0000_0000_0000 % 2 == 1 <==> !flags.user && !flags.execute)
  {
  }

  lemma LowFlags(k: int, low: int)
    ensures (0x1000 * k + low) / 0x400 % 2 == low / 0x400 % 2 && (0x1000 * k + low) / 0x100 % 4 == low / 0x100 % 4
  {
    DivModShift(4 * k, low, 0x400);
    DivModShift(2 * k, low / 0x400, 2);
    DivModShift(0x10 * k, low, 0x100);
    DivModShift(4 * k, low / 0x100, 4);
  }

  lemma LowFlagsAre(flags: PageFlags, cache: int)
    requires CacheMode(cache)
    ensures LowBits(flags, cache) / 0x400 % 2 == 1 && LowBits(flags, cache) / 0x100 % 4 == 2
  {
    var rest := AccessBits(flags) * 0x40 + cache * 4 + 3;
    DivModUnique(LowBits(flags, cache), 0x400, 1, 0x200 + rest);
    DivModUnique(LowBits(flags, cache), 0x100, 6, rest);
  }

  /** The access flag is set, and the page is outer shareable. */
  lemma EntryFlags(phys: int, flags: PageFlags, cache: int)
    requires Aligned(phys) && CacheMode(cache)
    ensures var e := PageEntry(phys, flags, cache); e / 0x400 % 2 == 1 && e / 0x100 % 4 == 2
  {
    var base := phys + HighBits(flags);
    assert base == 0x1000 * (base / 0x1000);
    LowFlagsAre(flags, cache);
    LowFlags(base / 0x1000, LowBits(flags, cache));
  }

  lemma PermissionBits(e: int)
    ensures Bits(e, 6, 1) == Permissions(e) % 2 && Bits(e, 7, 1) == Permissions(e) / 2
  {
    var q := e / 0x40;
    DivModUnique(e, 0x80, q / 2, q % 2 * 0x40 + e % 0x40);
    TwoBits(q);
    Powers();
  }

  lemma TwoBits(q: int)
    ensures q % 4 % 2 == q % 2 && q % 4 / 2 == q / 2 % 2
  {
  }

  /** What the processor makes of the attributes: users may read, write and execute what the flags say; the kernel may
      also write what users may not even read. */
  lemma EntryRights(phys: int, flags: PageFlags, cache: int)
    requires Aligned(phys) && CacheMode(cache)
    ensures var e := PageEntry(phys, flags, cache);
      && (UserReads(e) <==> flags.user && (flags.read || flags.write)) && (UserWrites(e) <==> flags.user && flags.write)
      && (KernelWrites(e) <==> flags.write || (flags.user && !flags.read))
      && (UserExecutes(e) <==> flags.execute || !flags.user) && (KernelExecutes(e) <==> flags.execute || flags.user)
  {
    var e := PageEntry(phys, flags, cache);
    EntryFields(phys, flags, cache);
    EntryExecute(phys, flags, cache);
    PermissionBits(e);
    Powers();
  }

  /** An entry of the last level that the processor uses. */
  predicate Accessible(entry: int) { IsTable(entry) && entry / 0x400 % 2 == 1 }

  /** What an entry of the last level means to the processor. */
  function PageAccess(entry: int, virt: int): Access
  {
    if Accessible(entry) then To(Address(entry) + virt % PAGE, entry) else Fault
  }

  lemma LastStep(memory: map<int, seq<int>>, table: int, virt: int, i: int)
    requires i == Bits(virt, 12, 9)
    ensures Lookup(memory, table, virt, 3) == PageAccess(Word(memory, table, i), virt)
  {
    EntryBits(Word(memory, table, i));
    Powers();
  }

  // Blocks of 512 pages and of 512 times as many, in an address of 52 bits.

  lemma SmallBlockNumber(a: int, w: int)
    requires 0 <= a && w == a % 0x100_0000_0000 && w * 0x1000 % 0x20_0000 == 0
    ensures a / 512 % 0x8000_0000 * 0x20_0000 == w * 0x1000
  {
    var u := a / 0x100_0000_0000;
    var q := w * 0x1000 / 0x20_0000;
    assert w == q * 512;
    DivModUnique(a, 512, u * 0x8000_0000 + q, 0);
    DivModUnique(u * 0x8000_0000 + q, 0x8000_0000, u, q);
  }

  lemma BlockNumber(a: int, w: int)
    requires 0 <= a && w == a % 0x100_0000_0000 && w * 0x1000 % 0x4000_0000 == 0
    ensures a / 0x4_0000 % 0x40_0000 * 0x4000_0000 == w * 0x1000
  {
    var u := a / 0x100_0000_0000;
    var q := w * 0x1000 / 0x4000_0000;
    assert w == q * 0x4_0000;
    DivModUnique(a, 0x4_0000, u * 0x40_0000 + q, 0);
    DivModUnique(u * 0x40_0000 + q, 0x40_0000, u, q);
  }

  lemma DivPages(e: int)
    ensures e / 0x20_0000 == e / 0x1000 / 512 && e / 0x4000_0000 == e / 0x1000 / 0x4_0000
  {
    var a, r := e / 0x1000, e % 0x1000;
    DivModUnique(e, 0x20_0000, a / 512, a % 512 * 0x1000 + r);
    DivModUnique(e, 0x4000_0000, a / 0x4_0000, a % 0x4_0000 * 0x1000 + r);
  }

  /** The processor drops the low bits of the address of a block, which are 0 if it is aligned. */
  lemma BlockReach(e: int, virt: int)
    requires 0 <= e && Address(e) % 0x4000_0000 == 0 && Reach(e, virt, 30).To?
    ensures Reach(e, virt, 30).phys == Address(e) + virt % 0x4000_0000
  {
    Powers();
    BlockNumber(e / 0x1000, e / 0x1000 % 0x100_0000_0000);
    DivPages(e);
  }

  lemma SmallBlockReach(e: int, virt: int)
    requires 0 <= e && Address(e) % 0x20_0000 == 0 && Reach(e, virt, 21).To?
    ensures Reach(e, virt, 21).phys == Address(e) + virt % 0x20_0000
  {
    Powers();
    SmallBlockNumber(e / 0x1000, e / 0x1000 % 0x100_0000_0000);
    DivPages(e);
  }

  /** A page entry leads to its page. */
  lemma EntryReached(phys: int, flags: PageFlags, cache: int)
    requires Aligned(phys) && CacheMode(cache)
    ensures var e := PageEntry(phys, flags, cache);
      forall v {:trigger PageAccess(e, v)} :: PageAccess(e, v) == To(phys + v % PAGE, e)
  {
    EntryAddress(phys, flags, cache);
    EntryFlags(phys, flags, cache);
  }

  /** The same page with other attributes. */
  function Reattributed(a: Access, virt: int, flags: PageFlags, cache: int): Access
  {
    if a.To? then To(a.phys, PageEntry(a.phys - virt % PAGE, flags, cache)) else Fault
  }

  lemma EntryReattributed(e: int, virt: int, flags: PageFlags, cache: int)
    requires 0 <= e && Accessible(e) && CacheMode(cache)
    ensures PageAccess(PageEntry(Address(e), flags, cache), virt) ==
      Reattributed(PageAccess(e, virt), virt, flags, cache)
  {
    AddressAligned(e);
    EntryAddress(Address(e), flags, cache);
    EntryFlags(Address(e), flags, cache);
  }

  lemma StepDown(memory: map<int, seq<int>>, table: int, virt: int, level: nat, i: int, e: int)
    requires level <= 2 && i == Bits(virt, 39 - 9 * level, 9) && e == Word(memory, table, i)
    ensures IsTable(e) ==> Lookup(memory, table, virt, level) == Lookup(memory, Address(e), virt, level + 1)
    ensures !Present(e) ==> Lookup(memory, table, virt, level) == Fault
  {
    EntryBits(e);
  }

  lemma BlockFound(memory: map<int, seq<int>>, table: int, virt: int, level: nat, i: int, e: int)
    requires 1 <= level <= 2 && i == Bits(virt, 39 - 9 * level, 9) && e == Word(memory, table, i)
    requires Present(e) && !TableBit(e)
    ensures Lookup(memory, table, virt, level) == Reach(e, virt, 39 - 9 * level)
  {
    EntryBits(e);
  }

  lemma EntryBits(e: int)
    ensures Bits(e, 0, 1) == e % 2 && Bits(e, 1, 1) == e / 2 % 2 && Bits(e, 10, 1) == e / 0x400 % 2
    ensures Bits(e, 12, 40) * Pow2(12) == Address(e)
  {
    Powers();
  }

  // ---------------------------------------------------------------- addresses

  function Index0(virt: int): int { virt / 0x80_0000_0000 % 512 }
  function Index1(virt: int): int { virt / 0x4000_0000 % 512 }
  function Index2(virt: int): int { virt / 0x20_0000 % 512 }
  function Index3(virt: int): int { virt / 0x1000 % 512 }

  /** The indices are the bits that the processor takes for the four levels. */
  lemma IndexBits(virt: int)
    ensures Index0(virt) == Bits(virt, 39, 9) && Index1(virt) == Bits(virt, 30, 9)
    ensures Index2(virt) == Bits(virt, 21, 9) && Index3(virt) == Bits(virt, 12, 9)
  {
    Powers();
  }

  /** The page number is made of the four indices, the one of the root being the highest. */
  lemma IndexDigits(virt: int)
    requires 0 <= virt
    ensures 0 <= Index0(virt) < ENTRIES && 0 <= Index1(virt) < ENTRIES
    ensures 0 <= Index2(virt) < ENTRIES && 0 <= Index3(virt) < ENTRIES
    ensures virt / PAGE % 0x10_0000_0000 ==
      Index0(virt) * 0x800_0000 + Index1(virt) * 0x4_0000 + Index2(virt) * 512 + Index3(virt)
  {
    Regroup(virt);
    PageNumber(virt / PAGE);
  }

  /** Two addresses name the same page of the 48-bit address space. */
  predicate SamePage(v: int, w: int) { v / 0x1000 % 0x10_0000_0000 == w / 0x1000 % 0x10_0000_0000 }

  lemma Regroup(v: int)
    requires 0 <= v
    ensures var a := v / 0x1000;
      v / 0x20_0000 == a / 512 && v / 0x4000_0000 == a / 512 / 512 && v / 0x80_0000_0000 == a / 512 / 512 / 512
  {
  }

  lemma PageNumber(a: int)
    requires 0 <= a
    ensures a % 0x10_0000_0000 ==
      a / 512 / 512 / 512 % 512 * 0x800_0000 + a / 512 / 512 % 512 * 0x4_0000 + a / 512 % 512 * 512 + a % 512
  {
    var b := a / 512;
    var c := b / 512;
    var d := c / 512;
    var r := d % 512 * 0x800_0000 + c % 512 * 0x4_0000 + b % 512 * 512 + a % 512;
    assert a == d / 512 * 0x10_0000_0000 + r;
    DivModUnique(a, 0x10_0000_0000, d / 512, r);
  }

  lemma SamePageIndices(v: int, w: int)
    requires 0 <= v && 0 <= w
    ensures SamePage(v, w) <==>
      Index0(v) == Index0(w) && Index1(v) == Index1(w) && Index2(v) == Index2(w) && Index3(v) == Index3(w)
  {
    Regroup(v);
    Regroup(w);
    PageNumber(v / 0x1000);
    PageNumber(w / 0x1000);
  }

  lemma InsidePage(virt: int, off: int)
    requires 0 <= virt && virt % PAGE == 0 && 0 <= off < PAGE
    ensures SamePage(virt + off, virt) && (virt + off) % PAGE == off
  {
    DivModUnique(virt + off, PAGE, virt / PAGE, off);
  }

  // ---------------------------------------------------------------- tables

  /** The place of a table in the tree: the indices on the way to it. */
  datatype Place = Root | Table1(i0: int) | Table2(i0: int, i1: int) | Table3(i0: int, i1: int, i2: int)

  function Child(p: Place, i: int): (q: Place)
    ensures !p.Table3? ==> q != Root && Parent(q) == p && Last(q) == i
  {
    match p
    case Root => Table1(i)
    case Table1(i0) => Table2(i0, i)
    case Table2(i0, i1) => Table3(i0, i1, i)
    case Table3(_, _, _) => Root
  }

  function Parent(p: Place): Place
  {
    match p
    case Root => Root
    case Table1(_) => Root
    case Table2(i0, _) => Table1(i0)
    case Table3(i0, i1, _) => Table2(i0, i1)
  }

  /** The level of a table. */
  function Depth(p: Place): (d: nat)
    ensures d <= 3
  {
    match p
    case Root => 0
    case Table1(_) => 1
    case Table2(_, _) => 2
    case Table3(_, _, _) => 3
  }

  function Last(p: Place): int
  {
    match p
    case Root => 0
    case Table1(i0) => i0
    case Table2(_, i1) => i1
    case Table3(_, _, i2) => i2
  }

  /** The pages that `pmalloc(1)` hands out. */
  // The arguments of the lemmas about two states, each of which takes one.

  /** The table in page `child` is hung below entry `i` of the table at `p`. */
  datatype Link = Link(p: Place, i: int, child: int)

  /** Entry `i` of the table at `p`, one of the last level, becomes `entry`. */
  datatype Leaf = Leaf(p: Place, i: int, entry: int)

  class PagePool {
    var free: seq<int>

    constructor (free: seq<int>)
      ensures this.free == free
    {
      this.free := free;
    }

    /** 0 when there is no page left. */
    method Alloc() returns (phys: int)
      modifies this
      ensures old(free) == [] ==> phys == 0 && free == []
      ensures old(free) != [] ==> phys == old(free)[0] && free == old(free)[1..]
    {
      if free == [] {
        return 0;
      }
      phys := free[0];
      free := free[1..];
    }

    method Release(phys: int)
      modifies this
      ensures free == [phys] + old(free)
    {
      free := [phys] + free;
    }
  }

  /** Every page has words of its own. */
  ghost predicate PageMemory(frames: map<int, array<int>>, home: map<array<int>, int>)
  {
    forall f {:trigger frames[f]} :: f in frames ==>
      Aligned(f) && f > 0 && frames[f].Length == ENTRIES && frames[f] in home && home[frames[f]] == f
  }

  /** Free pages are pages, and not tables. */
  ghost predicate FreeApart(free: seq<int>, frames: map<int, array<int>>, places: map<int, Place>)
  {
    Distinct(free) && forall k {:trigger free[k]} :: 0 <= k < |free| ==> free[k] in frames && free[k] !in places
  }

  lemma FreeAfterTable(free: seq<int>, frames: map<int, array<int>>, places: map<int, Place>, q: Place)
    requires free != [] && FreeApart(free, frames, places)
    ensures FreeApart(free[1..], frames, places[free[0] := q])
    ensures forall f {:trigger f in places} {:trigger f in free[1..]} ::
      f in free[1..] || f in places[free[0] := q] <==> f in free || f in places
  {
    assert free == [free[0]] + free[1..];
  }

  /** The tables between the root and the entry for `virt`. */
  ghost function Way(virt: int): set<Place>
  {
    {Table1(Index0(virt)), Table2(Index0(virt), Index1(virt)), Table3(Index0(virt), Index1(virt), Index2(virt))}
  }

  function Lack(tables: set<Place>, p: Place): nat { if p in tables then 0 else 1 }

  /** The number of tables that are missing on the way to the entry for `virt`. */
  function Lacking(tables: set<Place>, virt: int): nat
  {
    Lack(tables, Table1(Index0(virt))) + Lack(tables, Table2(Index0(virt), Index1(virt)))
    + Lack(tables, Table3(Index0(virt), Index1(virt), Index2(virt)))
  }

  lemma LackingBound(tables: set<Place>, virt: int)
    ensures Lacking(tables, virt) <= 3
  {
  }

  lemma NothingLacking(tables: set<Place>, virt: int)
    requires Way(virt) <= tables
    ensures Lacking(tables, virt) == 0
  {
  }

  lemma WaySize(tables: set<Place>, virt: int)
    ensures |Way(virt) - tables| == Lacking(tables, virt)
  {
    ThreeLacks(tables, Table1(Index0(virt)), Table2(Index0(virt), Index1(virt)),
               Table3(Index0(virt), Index1(virt), Index2(virt)));
  }

  lemma ThreeLacks(tables: set<Place>, p1: Place, p2: Place, p3: Place)
    requires p1 != p2 && p1 != p3 && p2 != p3
    ensures |{p1, p2, p3} - tables| == Lack(tables, p1) + Lack(tables, p2) + Lack(tables, p3)
  {
    WithLack({}, tables, p1);
    WithLack({p1}, tables, p2);
    WithLack({p1, p2}, tables, p3);
    assert {} + {p1} == {p1} && {p1} + {p2} == {p1, p2} && {p1, p2} + {p3} == {p1, p2, p3};
  }

  lemma WithLack(some: set<Place>, tables: set<Place>, p: Place)
    requires p !in some
    ensures |some + {p} - tables| == |some - tables| + Lack(tables, p)
  {
    assert some + {p} - tables == if p in tables then some - tables else some - tables + {p};
  }

  lemma LackWith(tables: set<Place>, p: Place, q: Place)
    requires p != q
    ensures Lack(tables + {q}, p) == Lack(tables, p)
  {
  }

  lemma AddWay(tables: set<Place>, virt: int, p1: Place, p2: Place, p3: Place)
    requires p1 == Table1(Index0(virt)) && p2 == Table2(Index0(virt), Index1(virt))
    requires p3 == Table3(Index0(virt), Index1(virt), Index2(virt))
    ensures tables + {p1} + {p2} + {p3} == tables + Way(virt)
  {
  }

  class PageMap {
    /** The words of each physical page, as the kernel sees them. */
    const frames: map<int, array<int>>
    ghost const home: map<array<int>, int>
    const pool: PagePool
    const root: int
    ghost var node: map<Place, int>
    ghost var places: map<int, Place>

    predicate IsPage(f: int) { f in frames && frames[f].Length == ENTRIES }

    ghost predicate Memory()
    {
      PageMemory(frames, home)
    }

    /** Tables have different pages. */
    ghost predicate Placed()
      reads this`node, this`places
    {
      && Root in node && node[Root] == root
      && (forall p {:trigger node[p]} :: p in node ==> node[p] in frames && node[p] in places && places[node[p]] == p)
      && (forall f {:trigger places[f]} :: f in places ==> places[f] in node && node[places[f]] == f)
    }

    /** An entry above the last level points to a table exactly when there is a table below it. */
    ghost predicate Threaded()
      reads this`node, frames.Values
    {
      forall p, i {:trigger Child(p, i)} ::
        p in node && !p.Table3? && 0 <= i < ENTRIES && IsPage(node[p]) && Child(p, i) != Root ==>
        && frames[node[p]][i] >= 0
        && (IsTable(frames[node[p]][i]) <==> Child(p, i) in node)
        && (Child(p, i) in node ==> Address(frames[node[p]][i]) == node[Child(p, i)])
        && (p == Root && Present(frames[node[p]][i]) ==> IsTable(frames[node[p]][i]))
    }

    /** Every table has a parent, unless it is the root, and hangs below one of its entries. */
    ghost predicate Rooted()
      reads this`node
    {
      forall p {:trigger Parent(p)} ::
        p in node && p != Root ==> Parent(p) in node && !Parent(p).Table3? && 0 <= Last(p) < ENTRIES
    }

    /** Entries of the last level are words. */
    ghost predicate Leaves()
      reads this`node, frames.Values
    {
      forall p, i {:trigger frames[node[p]][i]} :: p in node && p.Table3? && 0 <= i < ENTRIES && IsPage(node[p]) ==>
        frames[node[p]][i] >= 0
    }

    ghost predicate Pooled()
      reads this`places, pool
    {
      FreeApart(pool.free, frames, places)
    }

    ghost predicate Valid()
      reads this, pool, frames.Values
    {
      Memory() && Placed() && Threaded() && Rooted() && Leaves() && Pooled()
    }

    /** The entry for a page; 0 if there is no table for it. */
    ghost function Entry(virt: int): int
      reads this`node, frames.Values
    {
      var p := Table3(Index0(virt), Index1(virt), Index2(virt));
      if p in node && IsPage(node[p]) then frames[node[p]][Index3(virt)] else 0
    }

    /** The page is free or a table. */
    ghost predicate Ours(f: int)
      reads this`places, pool
    {
      f in pool.free || f in places
    }

    /** Free pages may have become tables; nothing else has changed hands. */
    twostate predicate SamePages()
      reads this`places, pool
    {
      && (forall f {:trigger Ours(f)} :: Ours(f) == old(Ours(f)))
      && (forall f {:trigger f in pool.free} :: f in pool.free ==> f in old(pool.free))
    }

    /** Entry `i` of the table at `p` is not a block. */
    ghost predicate NotBlock(p: Place, i: int)
      reads this`node, frames.Values
    {
      p in node && IsPage(node[p]) && 0 <= i < ENTRIES && Present(frames[node[p]][i]) ==> IsTable(frames[node[p]][i])
    }

    /** No entry on the way to the page is a block. */
    ghost predicate NoBlock(virt: int)
      reads this`node, frames.Values
    {
      NotBlock(Table1(Index0(virt)), Index1(virt)) && NotBlock(Table2(Index0(virt), Index1(virt)), Index2(virt))
    }

    // ---------------------------------------------------------------- making tables

    method ClearPage(table: array<int>)
      requires table.Length == ENTRIES
      modifies table
      ensures forall i :: 0 <= i < ENTRIES ==> table[i] == 0
    {
      for i := 0 to ENTRIES
        invariant forall j :: 0 <= j < i ==> table[j] == 0
      {
        table[i] := 0;
      }
    }

    /** Clears the page `child` and hangs it below entry `i` of the table in page `f`. */
    method LinkTable(f: int, i: int, child: int)
      requires Memory() && f in frames && child in frames && f != child && 0 <= i < ENTRIES
      modifies frames[f], frames[child]
      ensures frames[f][i] == child + 3
      ensures forall j {:trigger frames[f][j]} :: 0 <= j < ENTRIES && j != i ==> frames[f][j] == old(frames[f][j])
      ensures forall j {:trigger frames[child][j]} :: 0 <= j < ENTRIES ==> frames[child][j] == 0
    {
      assert home[frames[f]] == f && home[frames[child]] == child;
      ClearPage(frames[child]);
      frames[f][i] := child + 3;
    }

    /** A new table changes no entry of the last level and keeps the tree in order. */
    twostate lemma LinkedTree(x: Link)
      requires old(Memory() && Placed() && Threaded() && Rooted() && Leaves())
      requires old(x.p in node && !x.p.Table3? && 0 <= x.i < ENTRIES && Child(x.p, x.i) !in node)
      requires old(x.child in frames && x.child !in places)
      requires node == old(node)[Child(x.p, x.i) := x.child] && places == old(places)[x.child := Child(x.p, x.i)]
      requires frames[node[x.p]][x.i] == x.child + 3
      requires forall f, j {:trigger frames[f][j]} ::
        f in frames && 0 <= j < ENTRIES && f != x.child && !(f == node[x.p] && j == x.i) ==>
        frames[f][j] == old(frames[f][j])
      requires forall j {:trigger frames[x.child][j]} :: 0 <= j < ENTRIES ==> frames[x.child][j] == 0
      ensures Placed() && Threaded() && Rooted() && Leaves()
      ensures forall virt {:trigger Entry(virt)} :: Entry(virt) == old(Entry(virt))
      ensures forall virt {:trigger NoBlock(virt)} :: old(NoBlock(virt)) ==> NoBlock(virt)
    {
      TableEntry(x.child);
      ghost var q := Child(x.p, x.i);
      assert Parent(q) == x.p && Last(q) == x.i;
      forall p {:trigger Parent(p)} | p in node && p != Root
        ensures Parent(p) in node && !Parent(p).Table3? && 0 <= Last(p) < ENTRIES
      {
        assert p == q || (p in old(node) && Parent(p) in old(node));
      }
    }

    /** Makes a table below entry `i` of the table in page `f`; 0 when pages have run out. */
    method AddTable(f: int, i: int, ghost p: Place) returns (child: int)
      requires Valid() && p in node && node[p] == f && !p.Table3? && 0 <= i < ENTRIES && Child(p, i) !in node
      modifies pool, this`node, this`places, frames.Values
      ensures Valid() && (child == 0 ==> pool.free == [] && node == old(node))
      ensures child != 0 ==> node == old(node)[Child(p, i) := child]
      ensures |pool.free| == |old(pool.free)| - if child == 0 then 0 else 1
      ensures SamePages()
      ensures forall virt {:trigger Entry(virt)} :: Entry(virt) == old(Entry(virt))
      ensures forall virt {:trigger NoBlock(virt)} :: old(NoBlock(virt)) ==> NoBlock(virt)
    {
      if pool.free != [] {
        FreeAfterTable(pool.free, frames, places, Child(p, i));
      }
      child := pool.Alloc();
      if child == 0 {
        return;
      }
      assert frames[child] in frames.Values && frames[f] in frames.Values;
      LinkTable(f, i, child);
      node, places := node[Child(p, i) := child], places[child := Child(p, i)];
      LinkedTree(Link(p, i, child));
    }

    /** The table below entry `i` of the table in page `f`, which is made if there is none; 0 when pages have run
        out. */
    method EnsureTable(f: int, i: int, ghost p: Place) returns (child: int)
      requires Valid() && p in node && node[p] == f && !p.Table3? && 0 <= i < ENTRIES && NotBlock(p, i)
      modifies pool, this`node, this`places, frames.Values
      ensures Valid() && (child == 0 ==> pool.free == [] && node == old(node) && Child(p, i) !in node)
      ensures child != 0 ==> Child(p, i) in node && node == old(node)[Child(p, i) := child]
      ensures child != 0 ==> node.Keys == old(node.Keys) + {Child(p, i)}
      ensures |pool.free| == |old(pool.free)| - if child == 0 then 0 else Lack(old(node.Keys), Child(p, i))
      ensures SamePages()
      ensures forall virt {:trigger Entry(virt)} :: Entry(virt) == old(Entry(virt))
      ensures forall virt {:trigger NoBlock(virt)} :: old(NoBlock(virt)) ==> NoBlock(virt)
    {
      var entry := frames[f][i];
      ghost var q := Child(p, i);
      if Present(entry) {
        assert q in node && frames[node[q]].Length == ENTRIES;
        return Address(entry);
      }
      child := AddTable(f, i, p);
    }

    /** The entry of one page of the last level is overwritten. */
    twostate lemma LeafWritten(x: Leaf)
      requires old(Memory() && Placed() && Threaded() && Rooted() && Leaves())
      requires old(x.p in node && x.p.Table3? && 0 <= x.i < ENTRIES && IsPage(node[x.p])) && x.entry >= 0
      requires node == old(node) && places == old(places) && frames[node[x.p]][x.i] == x.entry
      requires forall f, j {:trigger frames[f][j]} ::
        f in frames && 0 <= j < ENTRIES && !(f == node[x.p] && j == x.i) ==>
        frames[f][j] == old(frames[f][j])
      ensures Threaded() && Leaves()
      ensures forall virt {:trigger Entry(virt)} ::
        var here := x.p == Table3(Index0(virt), Index1(virt), Index2(virt)) && x.i == Index3(virt);
        Entry(virt) == if here then x.entry else old(Entry(virt))
      ensures forall virt {:trigger NoBlock(virt)} :: old(NoBlock(virt)) ==> NoBlock(virt)
    {
      forall p, i {:trigger Child(p, i)} | p in node && !p.Table3? && 0 <= i < ENTRIES && IsPage(node[p])
        ensures frames[node[p]][i] == old(frames[node[p]][i])
      {
        assert places[node[p]] == p && places[node[x.p]] == x.p;
      }
    }

    /** Writes the entry of the page of `virt` into its table of the last level, which is in page `f`. */
    method WriteLeaf(f: int, virt: int, entry: int)
      requires Valid() && 0 <= virt && 0 <= entry
      requires var p := Table3(Index0(virt), Index1(virt), Index2(virt)); p in node && node[p] == f
      modifies frames.Values
      ensures Valid()
      ensures forall v :: 0 <= v ==> Entry(v) == if SamePage(v, virt) then entry else old(Entry(v))
      ensures forall v {:trigger NoBlock(v)} :: old(NoBlock(v)) ==> NoBlock(v)
    {
      ghost var p := Table3(Index0(virt), Index1(virt), Index2(virt));
      assert home[frames[f]] == f && frames[f] in frames.Values;
      frames[f][Index3(virt)] := entry;
      forall g, j {:trigger frames[g][j]} | g in frames && 0 <= j < ENTRIES && !(g == f && j == Index3(virt))
        ensures frames[g][j] == old(frames[g][j])
      {
        assert home[frames[g]] == g;
      }
      LeafWritten(Leaf(p, Index3(virt), entry));
      forall v | 0 <= v ensures Entry(v) == if SamePage(v, virt) then entry else old(Entry(v)) {
        SamePageIndices(v, virt);
      }
    }

    /** The table of the second level for `virt`, which is made if there is none; 0 when pages have run out. */
    method EnsureSecond(virt: int, ghost p1: Place, ghost p2: Place) returns (level2: int)
      requires Valid() && 0 <= virt && NoBlock(virt) && p1 == Table1(Index0(virt))
      requires p2 == Table2(Index0(virt), Index1(virt))
      modifies pool, this`node, this`places, frames.Values
      ensures Valid() && SamePages() && (level2 == 0 ==> pool.free == [])
      ensures level2 != 0 <==> Lack(old(node.Keys), p1) + Lack(old(node.Keys), p2) <= |old(pool.free)|
      ensures level2 != 0 ==> node.Keys == old(node.Keys) + {p1} + {p2} && node[p2] == level2
      ensures level2 != 0 ==> |pool.free| == |old(pool.free)| - Lack(old(node.Keys), p1) - Lack(old(node.Keys), p2)
      ensures forall v {:trigger Entry(v)} :: Entry(v) == old(Entry(v))
      ensures forall v {:trigger NoBlock(v)} :: old(NoBlock(v)) ==> NoBlock(v)
    {
      LackWith(node.Keys, p2, p1);
      assert Child(Root, Index0(virt)) == p1;
      var level1 := EnsureTable(root, Index0(virt), Root);
      if level1 == 0 {
        return 0;
      }
      assert NoBlock(virt);
      level2 := EnsureTable(level1, Index1(virt), p1);
    }

    /** The table of the last level for `virt`, which is made if there is none; 0 when pages have run out. */
    method EnsureLeaf(virt: int) returns (level3: int)
      requires Valid() && 0 <= virt && NoBlock(virt)
      modifies pool, this`node, this`places, frames.Values
      ensures Valid() && SamePages() && (level3 == 0 ==> pool.free == [])
      ensures level3 != 0 <==> Lacking(old(node.Keys), virt) <= |old(pool.free)|
      ensures level3 != 0 ==> node.Keys == old(node.Keys) + Way(virt)
      ensures level3 != 0 ==> |pool.free| == |old(pool.free)| - Lacking(old(node.Keys), virt)
      ensures forall v {:trigger Entry(v)} :: Entry(v) == old(Entry(v))
      ensures forall v {:trigger NoBlock(v)} :: old(NoBlock(v)) ==> NoBlock(v)
      ensures var p := Table3(Index0(virt), Index1(virt), Index2(virt)); level3 != 0 ==> p in node && node[p] == level3
    {
      ghost var p1, p2 := Table1(Index0(virt)), Table2(Index0(virt), Index1(virt));
      ghost var p3 := Table3(Index0(virt), Index1(virt), Index2(virt));
      LackWith(node.Keys, p3, p1);
      LackWith(node.Keys + {p1}, p3, p2);
      AddWay(node.Keys, virt, p1, p2, p3);
      var level2 := EnsureSecond(virt, p1, p2);
      if level2 == 0 {
        return 0;
      }
      assert NoBlock(virt);
      level3 := EnsureTable(level2, Index2(virt), p2);
    }

    /** Maps one page. When tables run out on the way, the tables made so far stay, but no translation has changed. */
    method Map(virt: int, phys: int, flags: PageFlags, cache: int) returns (ok: bool)
      requires Valid() && 0 <= virt && Aligned(phys) && CacheMode(cache) && NoBlock(virt)
      modifies pool, this`node, this`places, frames.Values
      ensures Valid() && SamePages() && (!ok ==> pool.free == [])
      ensures ok <==> Lacking(old(node.Keys), virt) <= |old(pool.free)|
      ensures ok ==> node.Keys == old(node.Keys) + Way(virt)
      ensures ok ==> |pool.free| == |old(pool.free)| - Lacking(old(node.Keys), virt)
      ensures forall v {:trigger Entry(v)} :: 0 <= v ==>
        Entry(v) == if ok && SamePage(v, virt) then PageEntry(phys, flags, cache) else old(Entry(v))
      ensures forall v {:trigger NoBlock(v)} :: old(NoBlock(v)) ==> NoBlock(v)
    {
      var level3 := EnsureLeaf(virt);
      if level3 == 0 {
        return false;
      }
      WriteLeaf(level3, virt, PageEntry(phys, flags, cache));
      return true;
    }

    // ---------------------------------------------------------------- walking

    /** There is a table of the last level for `virt`. */
    ghost predicate HasTable(virt: int)
      reads this`node
    {
      Table3(Index0(virt), Index1(virt), Index2(virt)) in node
    }

    /** The table below entry `i` of the table in page `f`; 0 if there is none or the entry is a block. */
    method FindTable(f: int, i: int, ghost p: Place) returns (child: int)
      requires Valid() && p in node && node[p] == f && !p.Table3? && 0 <= i < ENTRIES
      ensures child != 0 <==> Child(p, i) in node
      ensures child != 0 ==> node[Child(p, i)] == child
    {
      ghost var q := Child(p, i);
      var entry := frames[f][i];
      if !Present(entry) {
        return 0;
      }
      if !TableBit(entry) {
        return 0;
      }
      assert q in node && frames[node[q]].Length == ENTRIES;
      return Address(entry);
    }

    /** The table of the last level for `virt`; 0 if there is none. */
    method FindLeaf(virt: int) returns (level3: int)
      requires Valid() && 0 <= virt
      ensures level3 != 0 <==> HasTable(virt)
      ensures level3 != 0 ==> node[Table3(Index0(virt), Index1(virt), Index2(virt))] == level3
    {
      ghost var p1, p2 := Table1(Index0(virt)), Table2(Index0(virt), Index1(virt));
      assert p2 in node ==> Parent(p2) in node;
      assert HasTable(virt) ==> Parent(Table3(Index0(virt), Index1(virt), Index2(virt))) in node;
      var level1 := FindTable(root, Index0(virt), Root);
      if level1 == 0 {
        return 0;
      }
      var level2 := FindTable(level1, Index1(virt), p1);
      if level2 == 0 {
        return 0;
      }
      level3 := FindTable(level2, Index2(virt), p2);
    }

    /** Unmaps one page. */
    method Unmap(virt: int)
      requires Valid() && 0 <= virt
      modifies frames.Values
      ensures Valid()
      ensures forall v {:trigger Entry(v)} :: 0 <= v ==> Entry(v) == if SamePage(v, virt) then 0 else old(Entry(v))
      ensures forall v {:trigger NoBlock(v)} :: old(NoBlock(v)) ==> NoBlock(v)
    {
      var level3 := FindLeaf(virt);
      if level3 == 0 {
        forall v | 0 <= v && SamePage(v, virt) ensures Entry(v) == 0 {
          SamePageIndices(v, virt);
        }
        return;
      }
      WriteLeaf(level3, virt, 0);
    }

    /** Where `virt` translates to; -1 if it is not mapped. */
    ghost function Translation(virt: int): int
      reads this`node, frames.Values
    {
      if Present(Entry(virt)) then Address(Entry(virt)) else -1
    }

    lemma EntryIsWord(virt: int)
      requires Memory() && Placed() && Leaves() && 0 <= virt
      ensures 0 <= Entry(virt)
    {
    }

    /** Gives a page new permissions. */
    method Protect(virt: int, flags: PageFlags, cache: int)
      requires Valid() && 0 <= virt && CacheMode(cache)
      modifies frames.Values
      ensures Valid()
      ensures forall v {:trigger Entry(v)} :: 0 <= v ==>
        Entry(v) == if old(HasTable(virt)) && SamePage(v, virt)
                    then PageEntry(Address(old(Entry(v))), flags, cache) else old(Entry(v))
      ensures forall v {:trigger NoBlock(v)} :: old(NoBlock(v)) ==> NoBlock(v)
    {
      var level3 := FindLeaf(virt);
      if level3 == 0 {
        return;
      }
      var entry := frames[level3][Index3(virt)];
      ghost var before := Entry(virt);
      WriteLeaf(level3, virt, PageEntry(Address(entry), flags, cache));
      forall v | 0 <= v && SamePage(v, virt) ensures old(Entry(v)) == before {
        SamePageIndices(v, virt);
      }
    }

    /** `protect` changes no translation exactly when the page was mapped or there is no table for it: otherwise the
        page becomes present. */
    method ProtectExactly(virt: int, flags: PageFlags, cache: int)
      requires Valid() && 0 <= virt && CacheMode(cache)
      modifies frames.Values
      ensures Valid()
      ensures (forall v {:trigger Translation(v)} :: 0 <= v ==> Translation(v) == old(Translation(v)))
        <==> old(Present(Entry(virt)) || !HasTable(virt))
    {
      ghost var before, table := Entry(virt), HasTable(virt);
      EntryIsWord(virt);
      AddressAligned(before);
      EntryAddress(Address(before), flags, cache);
      forall v | 0 <= v && SamePage(v, virt) ensures Entry(v) == before {
        SamePageIndices(v, virt);
      }
      Protect(virt, flags, cache);
      assert table ==> Translation(virt) == Address(before);
    }

    /** A page that was mapped, unmapped and then protected is present again, and translates to the physical page 0. */
    method ProtectAfterUnmap(virt: int, phys: int, flags: PageFlags, cache: int) returns (ok: bool)
      requires Valid() && 0 <= virt && Aligned(phys) && CacheMode(cache) && NoBlock(virt)
      modifies pool, this`node, this`places, frames.Values
      ensures Valid() && (ok ==> Translation(virt) == 0)
    {
      ok := Map(virt, phys, flags, cache);
      EntryAddress(phys, flags, cache);
      EntryAddress(0, flags, cache);
      if ok {
        assert Table3(Index0(virt), Index1(virt), Index2(virt)) in node.Keys;
        Unmap(virt);
        Protect(virt, flags, cache);
      }
    }

    /** Entry `i` of the table at `p` is a block. */
    ghost predicate BlockAt(p: Place, i: int)
      reads this`node, frames.Values
    {
      p in node && IsPage(node[p]) && 0 <= i < ENTRIES && Present(frames[node[p]][i]) && !TableBit(frames[node[p]][i])
    }

    /** The physical address of `virt`, by the block or the table of the last level that holds its entry; for an address
        inside a page that is not mapped the offset alone. */
    ghost function Physical(virt: int): int
      reads this`node, frames.Values
    {
      var p1, p2 := Table1(Index0(virt)), Table2(Index0(virt), Index1(virt));
      if BlockAt(p1, Index1(virt)) then Or(Address(frames[node[p1]][Index1(virt)]), virt % 0x4000_0000)
      else if BlockAt(p2, Index2(virt)) then Or(Address(frames[node[p2]][Index2(virt)]), virt % 0x20_0000)
      else if HasTable(virt) then Address(Entry(virt)) + virt % PAGE
      else 0
    }

    /** The table that holds the entry for `virt` on the way down from the table in page `f`: -1 and the address when
        the entry is a block, otherwise the table below it. */
    method Descend(f: int, i: int, offset: int, ghost p: Place) returns (child: int, phys: int)
      requires Valid() && p in node && node[p] == f && !p.Table3? && 0 <= i < ENTRIES && 0 <= offset
      ensures child == -1 <==> BlockAt(p, i)
      ensures child == -1 ==> phys == Or(Address(frames[f][i]), offset)
      ensures child != -1 ==>
        0 <= child && (child != 0 <==> Child(p, i) in node) && (child != 0 ==> node[Child(p, i)] == child)
    {
      var entry := frames[f][i];
      assert Child(p, i) != Root && frames[f].Length == ENTRIES;
      child := FindTable(f, i, p);
      phys := 0;
      if Present(entry) && !TableBit(entry) {
        return -1, Or(Address(entry), offset);
      }
    }

    lemma PhysicalOfPage(virt: int)
      requires NoBlock(virt) && virt % PAGE == 0
      ensures Physical(virt) == Address(Entry(virt))
    {
    }

    /** `get_phys`. */
    method GetPhys(virt: int) returns (phys: int)
      requires Valid() && 0 <= virt
      ensures phys == Physical(virt)
      ensures NoBlock(virt) && virt % PAGE == 0 ==> phys == Address(Entry(virt))
      ensures BlocksAligned(virt) && Seen(virt).To? ==> phys == Seen(virt).phys
    {
      PhysicalFacts(virt);
      phys := Walk(virt);
    }

    method Walk(virt: int) returns (phys: int)
      requires Valid() && 0 <= virt
      ensures phys == Physical(virt)
    {
      ghost var p1, p2 := Table1(Index0(virt)), Table2(Index0(virt), Index1(virt));
      ghost var p3 := Table3(Index0(virt), Index1(virt), Index2(virt));
      assert (p2 in node ==> Parent(p2) in node) && (p3 in node ==> Parent(p3) in node);
      var child := FindTable(root, Index0(virt), Root);
      if child == 0 {
        return 0;
      }
      child, phys := Descend(child, Index1(virt), virt % 0x4000_0000, p1);
      if child == -1 {
        return;
      }
      if child == 0 {
        return 0;
      }
      child, phys := Descend(child, Index2(virt), virt % 0x20_0000, p2);
      if child == -1 {
        return;
      }
      if child == 0 {
        return 0;
      }
      return Address(frames[child][Index3(virt)]) + virt % PAGE;
    }

    /** Inside a block whose address is a multiple of its size, addresses translate with a constant distance. */
    lemma BlockTranslation(virt: int)
      requires Valid() && 0 <= virt && BlockAt(Table1(Index0(virt)), Index1(virt))
      requires Address(frames[node[Table1(Index0(virt))]][Index1(virt)]) % 0x4000_0000 == 0
      ensures Physical(virt) == Address(frames[node[Table1(Index0(virt))]][Index1(virt)]) + virt % 0x4000_0000
    {
      var entry := frames[node[Table1(Index0(virt))]][Index1(virt)];
      assert Child(Table1(Index0(virt)), Index1(virt)) != Root;
      AddressAligned(entry);
      OrSum(Address(entry), virt % 0x4000_0000);
    }

    /** Inside a block of 2 MiB too. */
    lemma SmallBlockTranslation(virt: int)
      requires Valid() && 0 <= virt && !BlockAt(Table1(Index0(virt)), Index1(virt))
      requires BlockAt(Table2(Index0(virt), Index1(virt)), Index2(virt))
      requires Address(frames[node[Table2(Index0(virt), Index1(virt))]][Index2(virt)]) % 0x20_0000 == 0
      ensures Physical(virt) ==
        Address(frames[node[Table2(Index0(virt), Index1(virt))]][Index2(virt)]) + virt % 0x20_0000
    {
      var entry := frames[node[Table2(Index0(virt), Index1(virt))]][Index2(virt)];
      assert Child(Table2(Index0(virt), Index1(virt)), Index2(virt)) != Root;
      AddressAligned(entry);
      OrSumBlock(Address(entry), virt % 0x20_0000);
    }

    // ---------------------------------------------------------------- what the processor sees

    /** The pages as they lie in memory. */
    ghost function Words(): map<int, seq<int>>
      reads frames.Values
    {
      map f | f in frames :: frames[f][..]
    }

    /** Where the processor gets with `virt`. */
    ghost function Seen(virt: int): Access
      reads frames.Values
    {
      Translate(Words(), root, virt)
    }

    lemma WordIs(f: int, i: int)
      requires f in frames && 0 <= i < frames[f].Length
      ensures Word(Words(), f, i) == frames[f][i]
    {
    }

    /** Entry `i` of the table at `p`; 0 if there is none. */
    ghost function EntryAt(p: Place, i: int): int
      reads this`node, frames.Values
    {
      if p in node && IsPage(node[p]) && 0 <= i < ENTRIES then frames[node[p]][i] else 0
    }

    /** Where the processor gets from the table at `p` on; without a table there is a fault. */
    ghost function Look(virt: int, p: Place): Access
      reads this`node, frames.Values
    {
      if p in node then Lookup(Words(), node[p], virt, Depth(p)) else Fault
    }

    /** One step of the walk: to the table below. */
    lemma WalkDown(virt: int, p: Place, i: int)
      requires Valid() && p in node && !p.Table3? && 0 <= i < ENTRIES && NotBlock(p, i)
      requires i == Bits(virt, 39 - 9 * Depth(p), 9)
      ensures Look(virt, p) == Look(virt, Child(p, i))
    {
      WordIs(node[p], i);
      StepDown(Words(), node[p], virt, Depth(p), i, frames[node[p]][i]);
    }

    /** Or to a block. */
    lemma WalkToBlock(virt: int, p: Place, i: int)
      requires Valid() && 1 <= Depth(p) <= 2 && BlockAt(p, i) && i == Bits(virt, 39 - 9 * Depth(p), 9)
      ensures Look(virt, p) == Reach(EntryAt(p, i), virt, 39 - 9 * Depth(p))
    {
      assert Child(p, i) != Root && frames[node[p]].Length == ENTRIES;
      WordIs(node[p], i);
      BlockFound(Words(), node[p], virt, Depth(p), i, frames[node[p]][i]);
    }

    lemma TableIsPage(p: Place)
      requires Valid() && p in node
      ensures IsPage(node[p])
    {
      var f := node[p];
      assert f in frames;
    }

    /** The last step. */
    lemma WalkLast(virt: int, p: Place, i: int)
      requires Valid() && p.Table3? && i == Bits(virt, 12, 9) && 0 <= i < ENTRIES
      ensures Look(virt, p) == PageAccess(EntryAt(p, i), virt)
    {
      if p in node {
        TableIsPage(p);
        WordIs(node[p], i);
        LastStep(Words(), node[p], virt, i);
      }
    }

    lemma RootHasNoBlock(i: int)
      requires Valid() && 0 <= i < ENTRIES
      ensures NotBlock(Root, i)
    {
      assert Child(Root, i) != Root;
    }

    /** Without the table above there is none below. */
    lemma NoneBelow(p: Place, i: int)
      requires Rooted() && p !in node && !p.Table3?
      ensures Child(p, i) !in node
    {
    }

    /** A step down, whether or not there is a table. */
    lemma WalkOn(virt: int, p: Place, i: int)
      requires Valid() && !p.Table3? && 0 <= i < ENTRIES && NotBlock(p, i) && i == Bits(virt, 39 - 9 * Depth(p), 9)
      ensures Look(virt, p) == Look(virt, Child(p, i))
    {
      if p in node {
        WalkDown(virt, p, i);
      } else {
        NoneBelow(p, i);
      }
    }

    lemma WalkFromRoot(virt: int, p: Place, i0: int)
      requires Valid() && 0 <= i0 < ENTRIES && p == Child(Root, i0) && i0 == Bits(virt, 39, 9)
      ensures Seen(virt) == Look(virt, p)
    {
      RootHasNoBlock(i0);
      WalkDown(virt, Root, i0);
    }

    /** The processor comes to the entry of the page, as long as there is no block on the way. */
    lemma SeenIs(virt: int)
      requires Valid() && 0 <= virt && NoBlock(virt)
      ensures Seen(virt) == PageAccess(Entry(virt), virt)
    {
      var p1, p2 := Table1(Index0(virt)), Table2(Index0(virt), Index1(virt));
      IndexBits(virt);
      WalkFromRoot(virt, p1, Index0(virt));
      WalkOn(virt, p1, Index1(virt));
      WalkOn(virt, p2, Index2(virt));
      WalkLast(virt, Child(p2, Index2(virt)), Index3(virt));
    }

    /** So it is for every address. */
    lemma AllSeen()
      requires Valid()
      ensures forall v {:trigger Seen(v)} :: 0 <= v && NoBlock(v) ==> Seen(v) == PageAccess(Entry(v), v)
    {
      forall v {:trigger Seen(v)} | 0 <= v && NoBlock(v) ensures Seen(v) == PageAccess(Entry(v), v) {
        SeenIs(v);
      }
    }

    lemma SamePageNoBlock(v: int, w: int)
      requires 0 <= v && 0 <= w && SamePage(v, w) && NoBlock(w)
      ensures NoBlock(v)
    {
      SamePageIndices(v, w);
    }

    /** `map`, as the processor sees it: it gets to the page with every address inside it, and with all others where it
        got before. */
    method MapSeen(virt: int, phys: int, flags: PageFlags, cache: int) returns (ok: bool)
      requires Valid() && 0 <= virt && Aligned(phys) && CacheMode(cache) && NoBlock(virt)
      modifies pool, this`node, this`places, frames.Values
      ensures Valid() && (ok <==> Lacking(old(node.Keys), virt) <= |old(pool.free)|)
      ensures forall v {:trigger NoBlock(v)} :: old(NoBlock(v)) ==> NoBlock(v)
      ensures forall v {:trigger Seen(v)} :: 0 <= v && old(NoBlock(v)) ==>
        Seen(v) == if ok && SamePage(v, virt)
                   then To(phys + v % PAGE, PageEntry(phys, flags, cache)) else old(Seen(v))
    {
      AllSeen();
      EntryReached(phys, flags, cache);
      ok := Map(virt, phys, flags, cache);
      AllSeen();
    }

    /** `unmap`: the page faults, and nothing else changes. */
    method UnmapSeen(virt: int)
      requires Valid() && 0 <= virt
      modifies frames.Values
      ensures Valid()
      ensures forall v {:trigger Seen(v)} :: 0 <= v && old(NoBlock(v)) ==>
        Seen(v) == if SamePage(v, virt) then Fault else old(Seen(v))
    {
      AllSeen();
      Unmap(virt);
      AllSeen();
    }

    lemma SeenEntry(virt: int) returns (e: int)
      requires Valid() && 0 <= virt && NoBlock(virt) && Seen(virt).To?
      ensures 0 <= e && Accessible(e) && HasTable(virt)
      ensures forall v {:trigger Entry(v)} :: 0 <= v && SamePage(v, virt) ==> Entry(v) == e
    {
      e := Entry(virt);
      SeenIs(virt);
      EntryIsWord(virt);
      forall v {:trigger Entry(v)} | 0 <= v && SamePage(v, virt) ensures Entry(v) == e {
        SamePageIndices(v, virt);
      }
    }

    /** `protect` of a page that is mapped: it stays where it is, with the new attributes. */
    method ProtectSeen(virt: int, flags: PageFlags, cache: int)
      requires Valid() && 0 <= virt && CacheMode(cache) && NoBlock(virt) && Seen(virt).To?
      modifies frames.Values
      ensures Valid()
      ensures forall v {:trigger Seen(v)} :: 0 <= v && old(NoBlock(v)) ==>
        Seen(v) == if SamePage(v, virt) then Reattributed(old(Seen(v)), v, flags, cache) else old(Seen(v))
    {
      ghost var e := SeenEntry(virt);
      AllSeen();
      Protect(virt, flags, cache);
      AllSeen();
      forall v {:trigger Seen(v)} | 0 <= v
        ensures PageAccess(PageEntry(Address(e), flags, cache), v) == Reattributed(PageAccess(e, v), v, flags, cache)
      {
        EntryReattributed(e, v, flags, cache);
      }
    }

    // Blocks.

    lemma SeenBlock(virt: int)
      requires Valid() && 0 <= virt && BlockAt(Table1(Index0(virt)), Index1(virt))
      ensures Seen(virt) == Reach(EntryAt(Table1(Index0(virt)), Index1(virt)), virt, 30)
    {
      IndexBits(virt);
      WalkFromRoot(virt, Table1(Index0(virt)), Index0(virt));
      WalkToBlock(virt, Table1(Index0(virt)), Index1(virt));
    }

    /** Above a table there is no block. */
    lemma AboveTable(p: Place)
      requires Valid() && p in node && p != Root
      ensures Parent(p) in node && NotBlock(Parent(p), Last(p)) && Child(Parent(p), Last(p)) == p
    {
      var q, i := Parent(p), Last(p);
      assert q in node && 0 <= i < ENTRIES && Child(q, i) == p;
    }

    lemma SeenSmallBlock(virt: int)
      requires Valid() && 0 <= virt && BlockAt(Table2(Index0(virt), Index1(virt)), Index2(virt))
      ensures Seen(virt) == Reach(EntryAt(Table2(Index0(virt), Index1(virt)), Index2(virt)), virt, 21)
    {
      var p1, p2 := Table1(Index0(virt)), Table2(Index0(virt), Index1(virt));
      IndexBits(virt);
      AboveTable(p2);
      WalkFromRoot(virt, p1, Index0(virt));
      WalkDown(virt, p1, Index1(virt));
      WalkToBlock(virt, p2, Index2(virt));
    }

    lemma BlockIsSeen(virt: int, p: Place)
      requires Valid() && 0 <= virt && p == Table1(Index0(virt)) && BlockAt(p, Index1(virt)) && Seen(virt).To?
      requires Address(frames[node[p]][Index1(virt)]) % 0x4000_0000 == 0
      ensures Physical(virt) == Seen(virt).phys
    {
      var e := frames[node[p]][Index1(virt)];
      assert Child(p, Index1(virt)) != Root;
      SeenBlock(virt);
      BlockTranslation(virt);
      BlockReach(e, virt);
    }

    lemma SmallBlockIsSeen(virt: int, p: Place)
      requires Valid() && 0 <= virt && !BlockAt(Table1(Index0(virt)), Index1(virt)) && Seen(virt).To?
      requires p == Table2(Index0(virt), Index1(virt)) && BlockAt(p, Index2(virt))
      requires Address(frames[node[p]][Index2(virt)]) % 0x20_0000 == 0
      ensures Physical(virt) == Seen(virt).phys
    {
      var e := frames[node[p]][Index2(virt)];
      assert Child(p, Index2(virt)) != Root;
      SeenSmallBlock(virt);
      SmallBlockTranslation(virt);
      SmallBlockReach(e, virt);
    }

    lemma PageIsSeen(virt: int)
      requires Valid() && 0 <= virt && NoBlock(virt) && Seen(virt).To?
      ensures Physical(virt) == Seen(virt).phys
    {
      SeenIs(virt);
      assert HasTable(virt);
    }

    /** Blocks on the way to `virt` lie at multiples of their sizes. */
    ghost predicate BlocksAligned(virt: int)
      reads this`node, frames.Values
    {
      var p1, p2 := Table1(Index0(virt)), Table2(Index0(virt), Index1(virt));
      && (BlockAt(p1, Index1(virt)) ==> Address(frames[node[p1]][Index1(virt)]) % 0x4000_0000 == 0)
      && (BlockAt(p2, Index2(virt)) ==> Address(frames[node[p2]][Index2(virt)]) % 0x20_0000 == 0)
    }

    lemma NoBlockAligned(virt: int)
      requires NoBlock(virt)
      ensures BlocksAligned(virt)
    {
    }

    /** What the tables say is what the processor does, wherever it gets. */
    lemma PhysicalIsSeen(virt: int)
      requires Valid() && 0 <= virt && BlocksAligned(virt) && Seen(virt).To?
      ensures Physical(virt) == Seen(virt).phys
    {
      var p1, p2 := Table1(Index0(virt)), Table2(Index0(virt), Index1(virt));
      if BlockAt(p1, Index1(virt)) {
        BlockIsSeen(virt, p1);
      } else if BlockAt(p2, Index2(virt)) {
        SmallBlockIsSeen(virt, p2);
      } else {
        PageIsSeen(virt);
      }
    }

    lemma PhysicalFacts(virt: int)
      requires Valid() && 0 <= virt
      ensures NoBlock(virt) && virt % PAGE == 0 ==> Physical(virt) == Address(Entry(virt))
      ensures BlocksAligned(virt) && Seen(virt).To? ==> Physical(virt) == Seen(virt).phys
    {
      if BlocksAligned(virt) && Seen(virt).To? {
        PhysicalIsSeen(virt);
      }
      if NoBlock(virt) && virt % PAGE == 0 {
        PhysicalOfPage(virt);
      }
    }

    /** `get_phys` of an address inside a page that has been mapped. */
    method MapAndTranslate(virt: int, phys: int, flags: PageFlags, cache: int, off: int) returns (ok: bool, found: int)
      requires Valid() && 0 <= virt && virt % PAGE == 0 && Aligned(phys) && CacheMode(cache) && NoBlock(virt)
      requires 0 <= off < PAGE
      modifies pool, this`node, this`places, frames.Values
      ensures Valid() && (ok <==> Lacking(old(node.Keys), virt) <= |old(pool.free)|)
      ensures ok ==> found == phys + off && Seen(virt + off) == To(phys + off, PageEntry(phys, flags, cache))
    {
      var v := virt + off;
      InsidePage(virt, off);
      SamePageNoBlock(v, virt);
      ok := MapSeen(virt, phys, flags, cache);
      NoBlockAligned(v);
      found := GetPhys(v);
    }

    /** A table of which all entries are 0 is the only one and has no blocks. */
    lemma FreshTable()
      requires Memory() && root in frames && node == map[Root := root] && places == map[root := Root]
      requires forall i :: 0 <= i < ENTRIES ==> frames[root][i] == 0
      ensures Placed() && Threaded() && Rooted() && Leaves()
      ensures forall virt {:trigger Entry(virt)} :: Entry(virt) == 0
      ensures forall virt {:trigger NoBlock(virt)} :: NoBlock(virt)
    {
    }

    /** A page that is mapped has all its tables. */
    lemma MappedHasWay(virt: int)
      requires Rooted() && Entry(virt) != 0
      ensures Way(virt) <= node.Keys
    {
      var p3 := Table3(Index0(virt), Index1(virt), Index2(virt));
      assert p3 in node && Parent(p3) in node && Parent(Parent(p3)) in node;
    }

    constructor (frames: map<int, array<int>>, ghost home: map<array<int>, int>, pool: PagePool)
      requires PageMemory(frames, home) && pool.free != [] && Distinct(pool.free)
      requires forall k {:trigger pool.free[k]} :: 0 <= k < |pool.free| ==> pool.free[k] in frames
      modifies pool, frames.Values
      ensures Valid() && this.frames == frames && this.pool == pool && pool.free == old(pool.free)[1..]
      ensures node.Keys == {Root}
      ensures forall virt {:trigger Entry(virt)} :: Entry(virt) == 0
      ensures forall virt {:trigger NoBlock(virt)} :: NoBlock(virt)
    {
      this.frames, this.home, this.pool := frames, home, pool;
      root := pool.free[0];
      node, places := map[Root := pool.free[0]], map[pool.free[0] := Root];
      new;
      var phys := pool.Alloc();
      ClearPage(frames[phys]);
      FreshTable();
    }
  }
}
