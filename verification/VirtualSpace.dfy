/** The kernel's virtual address space (src/mem/vspace.cpp): address ranges come from a `VMem`, a red-black tree holds a
    region for each of them, and `alloc_backed` maps physical pages into them. */
module VirtualSpace {
  import opened Arith
  import opened PageTable
  import opened Seqs
  import Mmu
  import RbTree
  import V = VMem
  import Extents

  const WINDOW: int := 0x1_0000_0000_0000

  /** The regions are the live blocks: one for each, at its base, with the size asked for. */
  ghost predicate Indexed(blocks: map<int, int>, sizes: map<int, int>, regionAt: map<int, RbTree.Node>,
                          nodes: set<RbTree.Node>)
  {
    && regionAt.Keys == blocks.Keys && sizes.Keys == blocks.Keys
    && (forall b {:trigger regionAt[b]} :: b in regionAt ==> regionAt[b] in nodes && regionAt[b].key == b)
    && (forall n {:trigger n.key} :: n in nodes ==> n.key in regionAt && regionAt[n.key] == n)
    && (forall b {:trigger sizes[b]} :: b in sizes ==> 0 <= sizes[b] < V.U64 && blocks[b] == V.AlignUp(sizes[b], PAGE))
  }

  lemma IndexedAfter(blocks: map<int, int>, sizes: map<int, int>, regionAt: map<int, RbTree.Node>,
                     nodes: set<RbTree.Node>, addr: int, size: int, reg: RbTree.Node)
    requires Indexed(blocks, sizes, regionAt, nodes) && addr !in blocks && 0 <= size < V.U64 && reg.key == addr
    ensures Indexed(blocks[addr := V.AlignUp(size, PAGE)], sizes[addr := size], regionAt[addr := reg], nodes + {reg})
  {
  }

  lemma IndexedWithout(blocks: map<int, int>, sizes: map<int, int>, regionAt: map<int, RbTree.Node>,
                       nodes: set<RbTree.Node>, ptr: int)
    requires Indexed(blocks, sizes, regionAt, nodes) && ptr in blocks
    ensures Indexed(blocks - {ptr}, sizes - {ptr}, regionAt - {ptr}, nodes - {regionAt[ptr]})
  {
  }

  /** Blocks are made of whole pages. */
  ghost predicate Paged(blocks: map<int, int>)
  {
    forall b {:trigger blocks[b]} :: b in blocks ==> 0 < b && b % PAGE == 0 && blocks[b] % PAGE == 0
  }

  lemma PagedAfter(blocks: map<int, int>, base: int, addr: int, size: int)
    requires Paged(blocks) && base % PAGE == 0 && V.Abuts(addr, base, blocks) && 0 < addr
    ensures Paged(blocks[addr := V.AlignUp(size, PAGE)])
  {
    V.AlignUpMultiple(size, PAGE);
    if addr != base {
      var b :| b in blocks && b + blocks[b] == addr;
    }
  }

  // ---------------------------------------------------------------- pages

  function PageIndex(virt: int): int { virt / PAGE % 0x10_0000_0000 }

  /** The range from `virt` over `n` pages does not cross a multiple of 2^48. */
  predicate InWindow(virt: int, n: int)
  {
    0 <= virt && 0 <= n && virt % PAGE == 0 && virt % WINDOW + n * PAGE <= WINDOW
  }

  lemma PageNumberAt(virt: int, n: int, j: int)
    requires InWindow(virt, n) && 0 <= j < n
    ensures PageIndex(virt + j * PAGE) == PageIndex(virt) + j && (virt + j * PAGE) % PAGE == 0
  {
    var a := virt / PAGE;
    assert virt == a * PAGE && (virt + j * PAGE) / PAGE == a + j;
    assert virt % WINDOW == a % 0x10_0000_0000 * PAGE;
  }

  lemma PutAndTakeNode(nodes: set<RbTree.Node>, n: RbTree.Node)
    requires n !in nodes
    ensures nodes + {n} - {n} == nodes
  {
  }

  /** The entries with those of `n` pages from `virt` on set to 0. */
  ghost function Cleared(entries: imap<int, int>, virt: int, n: int): imap<int, int>
  {
    imap v | v in entries :: if 0 <= PageIndex(v) - PageIndex(virt) < n then 0 else entries[v]
  }

  /** None of `n` pages from `virt` on had an entry. */
  ghost predicate WasVacant(entries: imap<int, int>, virt: int, n: int)
  {
    forall v {:trigger entries[v]} :: v in entries && 0 <= PageIndex(v) - PageIndex(virt) < n ==> entries[v] == 0
  }

  /** A live block covers `v`. */
  ghost predicate InBlock(blocks: map<int, int>, v: int)
  {
    exists b :: b in blocks && b <= v < b + blocks[b]
  }

  lemma PagesOf(size: int)
    ensures V.AlignUp(size, PAGE) / PAGE * PAGE == V.AlignUp(size, PAGE)
  {
    V.AlignUpMultiple(size, PAGE);
  }

  lemma WindowOffset(base: int, size: int, v: int)
    requires 0 <= base && base % WINDOW + size <= WINDOW && base <= v < base + size
    ensures v % WINDOW == base % WINDOW + (v - base)
  {
  }

  lemma PageIndexInWindow(v: int)
    requires 0 <= v
    ensures PageIndex(v) == v % WINDOW / PAGE
  {
  }

  /** Addresses of one window have the same distance as their pages. */
  lemma PageIndexIn(base: int, size: int, virt: int, v: int)
    requires 0 <= base && base % WINDOW + size <= WINDOW && base <= virt < base + size && base <= v < base + size
    requires virt % PAGE == 0
    ensures PageIndex(v) - PageIndex(virt) == (v - virt) / PAGE
  {
    WindowOffset(base, size, virt);
    WindowOffset(base, size, v);
    PageIndexInWindow(virt);
    PageIndexInWindow(v);
  }

  // ---------------------------------------------------------------- tables for a range

  /** The pages it takes to map `n` pages of data from `virt` on: these, and the tables that are missing for the first
      of them, and for the others when those have been made. */
  ghost function Cost(tables: set<Place>, virt: int, n: nat): nat
    decreases n
  {
    if n == 0 then 0 else 1 + Lacking(tables, virt) + Cost(tables + Way(virt), virt + PAGE, n - 1)
  }

  /** The tables on the ways to `n` pages from `virt` on. */
  ghost function Ways(virt: int, n: nat): set<Place>
    decreases n
  {
    if n == 0 then {} else Way(virt) + Ways(virt + PAGE, n - 1)
  }

  lemma MissingInBoth(some: set<Place>, more: set<Place>, tables: set<Place>)
    ensures |some + more - tables| == |some - tables| + |more - (tables + some)|
  {
    assert some + more - tables == (some - tables) + (more - (tables + some));
  }

  /** Each missing table is made once. */
  lemma {:induction false} CostExactly(tables: set<Place>, virt: int, n: nat)
    ensures Cost(tables, virt, n) == n + |Ways(virt, n) - tables|
    decreases n
  {
    if n > 0 {
      CostExactly(tables + Way(virt), virt + PAGE, n - 1);
      MissingInBoth(Way(virt), Ways(virt + PAGE, n - 1), tables);
      WaySize(tables, virt);
    }
  }

  /** No page needs more than three tables. */
  lemma {:induction false} CostBound(tables: set<Place>, virt: int, n: nat)
    ensures Cost(tables, virt, n) <= 4 * n
    decreases n
  {
    if n > 0 {
      CostBound(tables + Way(virt), virt + PAGE, n - 1);
      LackingBound(tables, virt);
    }
  }

  /** The first two pages of 2 MiB have the same tables. */
  lemma SameTables(virt: int)
    requires 0 <= virt && virt % 0x20_0000 == 0
    ensures Way(virt + PAGE) == Way(virt)
  {
    var a := virt / 0x20_0000;
    assert virt + PAGE == a * 0x20_0000 + 0x1000;
    assert (virt + PAGE) / 0x20_0000 == a;
    assert (virt + PAGE) / 0x4000_0000 == a / 512 == virt / 0x4000_0000;
    assert (virt + PAGE) / 0x80_0000_0000 == a / 0x4_0000 == virt / 0x80_0000_0000;
  }

  // ---------------------------------------------------------------- backed blocks

  /** The pages of data behind a block, and how they are mapped. */
  datatype Backing = Backing(phys: seq<int>, flags: PageFlags, cache: int)

  /** The pages from `b` on are mapped to the pages of `k`, which are pages of data. */
  ghost predicate BackedIn(entries: imap<int, int>, ours: iset<int>, frames: set<int>, b: int, k: Backing)
  {
    && (forall v {:trigger entries[v]} :: v in entries && 0 <= PageIndex(v) - PageIndex(b) < |k.phys| ==>
          entries[v] == PageEntry(k.phys[PageIndex(v) - PageIndex(b)], k.flags, k.cache))
    && (forall j {:trigger k.phys[j]} :: 0 <= j < |k.phys| ==>
          Aligned(k.phys[j]) && k.phys[j] in frames && k.phys[j] !in ours)
    && Distinct(k.phys) && CacheMode(k.cache)
  }

  /** No page of data is in both. */
  ghost predicate Disjoint(s: seq<int>, t: seq<int>)
  {
    forall i {:trigger s[i]} :: 0 <= i < |s| ==> s[i] !in t
  }

  /** The live blocks in `backed` are backed, and no two of them share a page of data. */
  ghost predicate AllBacked(entries: imap<int, int>, ours: iset<int>, frames: set<int>, blocks: map<int, int>,
                            backed: map<int, Backing>)
  {
    && (forall b {:trigger backed[b]} :: b in backed ==>
          b in blocks && |backed[b].phys| * PAGE == blocks[b] && BackedIn(entries, ours, frames, b, backed[b]))
    && (forall b, c {:trigger backed[b], backed[c]} :: b in backed && c in backed && b != c ==>
          Disjoint(backed[b].phys, backed[c].phys))
  }

  /** The `m` pages from `b` on and the `n` pages from `c` on are different pages of the 48-bit space. */
  ghost predicate IndexApart(b: int, m: int, c: int, n: int)
  {
    PageIndex(b) + m <= PageIndex(c) || PageIndex(c) + n <= PageIndex(b)
  }

  /** A block whose pages lie elsewhere stays backed when other pages are mapped or unmapped. */
  lemma StaysBacked(entries: imap<int, int>, ours: iset<int>, entries': imap<int, int>, ours': iset<int>,
                    frames: set<int>, b: int, k: Backing, addr: int, n: int)
    requires BackedIn(entries, ours, frames, b, k) && IndexApart(b, |k.phys|, addr, n)
    requires forall v {:trigger entries'[v]} :: v in entries' ==>
      v in entries && (!(0 <= PageIndex(v) - PageIndex(addr) < n) ==> entries'[v] == entries[v])
    requires forall j {:trigger k.phys[j]} :: 0 <= j < |k.phys| ==> k.phys[j] !in ours'
    ensures BackedIn(entries', ours', frames, b, k)
  {
  }

  /** Exactly the pages from `addr` on have been mapped, to pages of data that were free before. */
  ghost predicate NewBacking(entries: imap<int, int>, ours: iset<int>, entries': imap<int, int>, ours': iset<int>,
                             frames: set<int>, addr: int, k: Backing)
  {
    && BackedIn(entries', ours', frames, addr, k)
    && (forall j {:trigger k.phys[j]} :: 0 <= j < |k.phys| ==> k.phys[j] in ours)
    && (forall v {:trigger entries'[v]} :: v in entries' ==>
          v in entries && (!(0 <= PageIndex(v) - PageIndex(addr) < |k.phys|) ==> entries'[v] == entries[v]))
    && (forall f {:trigger f in ours'} :: f in ours' <==> f in ours && f !in k.phys)
  }

  /** Mapping the pages of a new block keeps the others backed. */
  lemma BackedAfterAlloc(entries: imap<int, int>, ours: iset<int>, entries': imap<int, int>, ours': iset<int>,
                         frames: set<int>, blocks: map<int, int>, backed: map<int, Backing>, addr: int, k: Backing)
    requires AllBacked(entries, ours, frames, blocks, backed) && addr !in blocks
    requires forall b {:trigger backed[b]} :: b in backed ==> IndexApart(b, |backed[b].phys|, addr, |k.phys|)
    requires NewBacking(entries, ours, entries', ours', frames, addr, k)
    ensures AllBacked(entries', ours', frames, blocks[addr := |k.phys| * PAGE], backed[addr := k])
  {
    forall b {:trigger backed[b]} | b in backed
      ensures BackedIn(entries', ours', frames, b, backed[b]) && Disjoint(backed[b].phys, k.phys)
      ensures Disjoint(k.phys, backed[b].phys)
    {
      ApartFromNew(ours, backed[b].phys, k.phys);
      StaysBacked(entries, ours, entries', ours', frames, b, backed[b], addr, |k.phys|);
    }
  }

  lemma ApartFromNew(ours: iset<int>, s: seq<int>, t: seq<int>)
    requires forall j {:trigger s[j]} :: 0 <= j < |s| ==> s[j] !in ours
    requires forall j {:trigger t[j]} :: 0 <= j < |t| ==> t[j] in ours
    ensures Disjoint(s, t) && Disjoint(t, s)
  {
  }

  /** Unmapping the pages of one block keeps the others backed. */
  lemma BackedAfterFree(entries: imap<int, int>, ours: iset<int>, frames: set<int>, blocks: map<int, int>,
                        backed: map<int, Backing>, ptr: int)
    requires AllBacked(entries, ours, frames, blocks, backed) && ptr in backed
    requires forall b {:trigger backed[b]} :: b in backed && b != ptr ==>
      IndexApart(b, |backed[b].phys|, ptr, |backed[ptr].phys|)
    ensures var phys := backed[ptr].phys;
      AllBacked(Cleared(entries, ptr, |phys|), ours + (iset f | f in phys), frames, blocks - {ptr}, backed - {ptr})
  {
    var phys := backed[ptr].phys;
    var entries', ours' := Cleared(entries, ptr, |phys|), ours + (iset f | f in phys);
    forall b {:trigger backed[b]} | b in backed && b != ptr ensures BackedIn(entries', ours', frames, b, backed[b]) {
      assert Disjoint(backed[b].phys, phys);
      StaysBacked(entries, ours, entries', ours', frames, b, backed[b], ptr, |phys|);
    }
  }

  /** A page table that maps nothing. */
  ghost predicate Clean(pageMap: PageMap)
    reads pageMap, pageMap.pool, pageMap.frames.Values
  {
    && pageMap.Valid() && (forall v {:trigger pageMap.Entry(v)} :: pageMap.Entry(v) == 0)
    && (forall v {:trigger pageMap.NoBlock(v)} :: pageMap.NoBlock(v))
  }

  twostate lemma StaysClean(pageMap: PageMap)
    requires old(Clean(pageMap)) && unchanged(pageMap) && unchanged(pageMap.pool) && unchanged(pageMap.frames.Values)
    ensures Clean(pageMap)
  {
  }

  // The arguments of the lemmas about two states, each of which takes one.

  /** The pages `phys` have been mapped from `addr` on, where `before` had no block. */
  datatype NewPages = NewPages(before: map<int, int>, addr: int, phys: seq<int>, flags: PageFlags, cache: int)

  /** The `n` pages of the block at `ptr` have been unmapped. */
  datatype OldPages = OldPages(blocks: map<int, int>, ptr: int, n: int)

  /** `alloc_backed` of `size` bytes, and `free_backed` of the block at `ptr`. */
  datatype Call = AllocCall(size: int, flags: PageFlags, cache: int) | FreeCall(ptr: int)

  class VirtualSpace {
    const vmem: V.VMem
    const regions: RbTree.Tree
    const pageMap: PageMap
    /** The sizes of the regions, by their bases. */
    var sizes: map<int, int>
    ghost var regionAt: map<int, RbTree.Node>

    /** The allocator and the tree are in order. */
    ghost predicate Sound()
      reads vmem, vmem.segs, vmem.span, regions, regions.nodes
    {
      vmem.Valid() && regions.Search()
    }

    ghost predicate Ranges()
      reads this, vmem, vmem.segs, vmem.span, regions, regions.nodes
    {
      && Sound() && vmem.quantum == PAGE && vmem.base % PAGE == 0
      && Indexed(vmem.blocks, sizes, regionAt, regions.nodes) && Paged(vmem.blocks)
    }

    constructor (base: int, size: int, supply: seq<seq<V.Segment>>, ghost segs: set<V.Segment>, pageMap: PageMap)
      requires base > 0 && base % PAGE == 0 && size > 0 && base + size < V.U64 && |supply| > 0 && V.Pages(supply, segs)
      requires forall s {:trigger s.on} :: s in segs ==> !s.on
      modifies segs
      ensures Ranges() && vmem.blocks == map[] && vmem.base == base && vmem.size == size && this.pageMap == pageMap
      ensures vmem.Descriptors() == 70 + 72 * (|supply| - 1)
      ensures fresh(vmem) && fresh(regions) && regions.nodes == {} && vmem.segs == segs
    {
      assert Pow2(12) == PAGE;
      vmem := new V.VMem(base, size, PAGE, supply, segs);
      regions := new RbTree.Tree();
      this.pageMap := pageMap;
      sizes, regionAt := map[], map[];
    }

    /** An address space without ranges and with a clean page table is in order. */
    lemma CleanIsValid()
      requires Ranges() && Arena() && vmem.blocks == map[] && Clean(pageMap)
      ensures Valid() && AllBacked(Entries(), OurPages(), pageMap.frames.Keys, map[], map[])
    {
    }

    /** A new address space over a page table that maps nothing. */
    static method WithTable(base: int, size: int, supply: seq<seq<V.Segment>>, ghost segs: set<V.Segment>,
                            pageMap: PageMap)
      returns (space: VirtualSpace)
      requires base > 0 && base % PAGE == 0 && size > 0 && base % WINDOW + size <= WINDOW && base + size < V.U64
      requires |supply| > 0 && V.Pages(supply, segs) && forall s {:trigger s.on} :: s in segs ==> !s.on
      requires Clean(pageMap)
      modifies segs
      ensures fresh(space) && space.Valid() && space.vmem.blocks == map[] && space.vmem.base == base
      ensures space.vmem.size == size
      ensures space.vmem.Descriptors() == 70 + 72 * (|supply| - 1) && space.pageMap == pageMap
      ensures unchanged(pageMap.pool) && unchanged(pageMap)
      ensures fresh(space.vmem) && fresh(space.regions) && space.regions.nodes == {} && space.vmem.segs == segs
      ensures AllBacked(space.Entries(), space.OurPages(), space.pageMap.frames.Keys, map[], map[])
    {
      space := new VirtualSpace(base, size, supply, segs, pageMap);
      StaysClean(pageMap);
      space.CleanIsValid();
    }

    /** A new address space with a page table of its own. */
    static method Create(base: int, size: int, supply: seq<seq<V.Segment>>, ghost segs: set<V.Segment>,
                         frames: map<int, array<int>>, ghost home: map<array<int>, int>, pool: PagePool)
      returns (space: VirtualSpace)
      requires base > 0 && base % PAGE == 0 && size > 0 && base % WINDOW + size <= WINDOW && base + size < V.U64
      requires |supply| > 0 && V.Pages(supply, segs) && forall s {:trigger s.on} :: s in segs ==> !s.on
      requires PageMemory(frames, home) && pool.free != [] && Distinct(pool.free)
      requires forall k {:trigger pool.free[k]} :: 0 <= k < |pool.free| ==> pool.free[k] in frames
      modifies segs, pool, frames.Values
      ensures fresh(space) && space.Valid() && space.vmem.blocks == map[] && space.vmem.base == base
      ensures space.vmem.size == size
      ensures space.vmem.Descriptors() == 70 + 72 * (|supply| - 1)
      ensures space.pageMap.pool == pool && pool.free == old(pool.free)[1..] && space.pageMap.node.Keys == {Root}
      ensures fresh(space.pageMap) && space.pageMap.frames == frames
      ensures fresh(space.vmem) && fresh(space.regions) && space.regions.nodes == {} && space.vmem.segs == segs
      ensures AllBacked(space.Entries(), space.OurPages(), space.pageMap.frames.Keys, map[], map[])
    {
      var pageMap := new PageMap(frames, home, pool);
      space := WithTable(base, size, supply, segs, pageMap);
    }

    // One call each, with what it leaves alone.

    /** Why there is no range for `size` bytes: the rounded size is 0, or no free segment has room for it, or
        descriptors have run out. */
    ghost predicate NoRange(size: int)
      reads vmem, vmem.segs
    {
      V.AlignUp(size, PAGE) <= 0 || vmem.NoRoom(V.AlignUp(size, PAGE)) || vmem.Descriptors() < 2
    }

    /** Where the allocator puts a range of `size` bytes; 0 if it does not. */
    ghost function Where(size: int): int
      reads vmem, vmem.segs
    {
      if vmem.quantum > 0 then vmem.Served(size, 0, 0) else 0
    }

    method Reserve(size: int) returns (addr: int)
      requires Sound() && vmem.quantum == PAGE && 0 <= size < V.U64
      modifies vmem, vmem.segs
      ensures addr == old(Where(size)) && (addr == 0 ==> old(NoRange(size)))
      ensures Sound() && (addr == 0 ==> vmem.blocks == old(vmem.blocks))
      ensures addr != 0 ==> vmem.base <= addr && addr !in old(vmem.blocks) && V.Abuts(addr, vmem.base, old(vmem.blocks))
      ensures addr != 0 ==> vmem.blocks == old(vmem.blocks)[addr := V.AlignUp(size, PAGE)]
    {
      addr := vmem.Xalloc(size, 0, 0);
    }

    method Release(ptr: int, size: int)
      requires Sound() && vmem.quantum == PAGE && 0 <= ptr && 0 <= size < V.U64
      requires ptr in vmem.blocks && vmem.blocks[ptr] == V.AlignUp(size, PAGE)
      modifies vmem, vmem.segs
      ensures Sound() && vmem.blocks == old(vmem.blocks) - {ptr}
    {
      vmem.Xfree(ptr, size);
    }

    method TreeInsert(reg: RbTree.Node)
      requires Sound() && reg !in regions.nodes && forall n {:trigger n.key} :: n in regions.nodes ==> n.key != reg.key
      modifies regions, regions.nodes, reg
      ensures Sound() && regions.nodes == old(regions.nodes) + {reg}
    {
      regions.Insert(reg);
    }

    method TreeDelete(reg: RbTree.Node)
      requires Sound() && reg in regions.nodes
      modifies regions, regions.nodes
      ensures Sound() && regions.nodes == old(regions.nodes) - {reg}
    {
      regions.Delete(reg);
    }

    /** A region for the new block at `addr` goes into the tree. */
    method AddRegion(addr: int, size: int, ghost before: map<int, int>)
      requires Sound() && Indexed(before, sizes, regionAt, regions.nodes) && addr !in before && 0 <= size < V.U64
      modifies this`sizes, this`regionAt, regions, regions.nodes
      ensures Sound() && Indexed(before[addr := V.AlignUp(size, PAGE)], sizes, regionAt, regions.nodes)
      ensures sizes == old(sizes)[addr := size] && addr in regionAt
      ensures regions.nodes == old(regions.nodes) + {regionAt[addr]}
      ensures fresh(regionAt[addr])
    {
      var reg := new RbTree.Node(addr);
      IndexedAfter(before, sizes, regionAt, regions.nodes, addr, size, reg);
      TreeInsert(reg);
      sizes := sizes[addr := size];
      regionAt := regionAt[addr := reg];
    }

    method FindRegion(ptr: int, ghost before: map<int, int>) returns (reg: RbTree.Node)
      requires Sound() && Indexed(before, sizes, regionAt, regions.nodes) && ptr in before
      ensures reg == regionAt[ptr] && reg in regions.nodes
    {
      assert regionAt[ptr].key == ptr;
      reg := regions.Find(ptr);
    }

    /** The region of the block at `ptr`, which is no longer live, leaves the tree. */
    method DropRegion(ptr: int, ghost before: map<int, int>)
      requires Sound() && Indexed(before, sizes, regionAt, regions.nodes) && ptr in before
      modifies this`sizes, this`regionAt, regions, regions.nodes
      ensures Sound() && Indexed(before - {ptr}, sizes, regionAt, regions.nodes)
      ensures sizes == old(sizes) - {ptr} && regions.nodes == old(regions.nodes) - {old(regionAt)[ptr]}
    {
      IndexedWithout(before, sizes, regionAt, regions.nodes, ptr);
      var reg := FindRegion(ptr, before);
      TreeDelete(reg);
      sizes := sizes - {ptr};
      regionAt := regionAt - {ptr};
    }

    method Alloc(size: int) returns (addr: int)
      requires Ranges() && 0 <= size < V.U64
      modifies this`sizes, this`regionAt, vmem, vmem.segs, regions, regions.nodes
      ensures Ranges()
      ensures addr == old(Where(size)) && (addr == 0 ==> old(NoRange(size)))
      ensures addr == 0 ==>
        vmem.blocks == old(vmem.blocks) && regions.nodes == old(regions.nodes) && sizes == old(sizes)
      ensures addr != 0 ==>
        && addr !in old(vmem.blocks) && vmem.blocks == old(vmem.blocks)[addr := V.AlignUp(size, PAGE)]
        && sizes == old(sizes)[addr := size] && addr in regionAt
        && regions.nodes == old(regions.nodes) + {regionAt[addr]}
        && fresh(regionAt[addr])
    {
      addr := Reserve(size);
      if addr == 0 {
        return;
      }
      PagedAfter(old(vmem.blocks), vmem.base, addr, size);
      AddRegion(addr, size, old(vmem.blocks));
    }

    method Free(ptr: int, size: int)
      requires Ranges() && ptr in vmem.blocks && sizes[ptr] == size
      modifies this`sizes, this`regionAt, vmem, vmem.segs, regions, regions.nodes
      ensures Ranges() && vmem.blocks == old(vmem.blocks) - {ptr} && sizes == old(sizes) - {ptr}
      ensures regions.nodes == old(regions.nodes) - {old(regionAt)[ptr]}
    {
      assert vmem.blocks[ptr] == V.AlignUp(size, PAGE);
      Release(ptr, size);
      DropRegion(ptr, old(vmem.blocks));
    }

    // ---------------------------------------------------------------- physical pages

    /** `pmalloc(1)`: the page is neither free nor a table any more. */
    method TakePage() returns (phys: int)
      requires pageMap.Valid()
      modifies pageMap.pool
      ensures pageMap.Valid()
      ensures phys != 0 <==> old(pageMap.pool.free) != []
      ensures |pageMap.pool.free| == |old(pageMap.pool.free)| - if phys == 0 then 0 else 1
      ensures phys == 0 ==> forall f {:trigger pageMap.Ours(f)} :: pageMap.Ours(f) == old(pageMap.Ours(f))
      ensures phys != 0 ==> Aligned(phys) && phys in pageMap.frames && old(pageMap.Ours(phys))
      ensures phys != 0 ==>
        forall f {:trigger pageMap.Ours(f)} :: pageMap.Ours(f) == (old(pageMap.Ours(f)) && f != phys)
    {
      phys := pageMap.pool.Alloc();
    }

    /** `pfree(phys, 1)`. */
    method ReturnPage(phys: int)
      requires pageMap.Valid() && phys in pageMap.frames && !pageMap.Ours(phys)
      modifies pageMap.pool
      ensures pageMap.Valid()
      ensures forall f {:trigger pageMap.Ours(f)} :: pageMap.Ours(f) == (old(pageMap.Ours(f)) || f == phys)
    {
      pageMap.pool.Release(phys);
    }

    /** All entries of the page table. */
    ghost function Entries(): imap<int, int>
      reads pageMap, pageMap.frames.Values
    {
      imap v | 0 <= v :: pageMap.Entry(v)
    }

    /** The pages that are free or tables. */
    ghost function OurPages(): iset<int>
      reads pageMap, pageMap.pool
    {
      iset f | pageMap.Ours(f)
    }

    /** The pages from `virt` on are mapped to `phys`, all others as in `entries`. */
    ghost predicate Mapped(entries: imap<int, int>, virt: int, phys: seq<int>, flags: PageFlags, cache: int)
      reads pageMap, pageMap.frames.Values
    {
      forall v {:trigger pageMap.Entry(v)} :: 0 <= v && v in entries ==>
        var j := PageIndex(v) - PageIndex(virt);
        pageMap.Entry(v) == if 0 <= j < |phys| then PageEntry(phys[j], flags, cache) else entries[v]
    }

    /** The pages `phys` are pages of data: they have been taken out of `ours`, each of them once. */
    ghost predicate Holds(ours: iset<int>, phys: seq<int>)
      reads pageMap, pageMap.pool
    {
      && (forall f {:trigger pageMap.Ours(f)} :: pageMap.Ours(f) <==> f in ours && f !in phys)
      && (forall j {:trigger phys[j]} :: 0 <= j < |phys| ==>
            Aligned(phys[j]) && phys[j] in pageMap.frames && phys[j] in ours)
      && Distinct(phys)
    }

    /** No page from `virt` on is inside a block. */
    ghost predicate NoBlocks(virt: int, n: int)
      reads pageMap, pageMap.frames.Values
    {
      forall v {:trigger pageMap.NoBlock(v)} :: 0 <= v && 0 <= PageIndex(v) - PageIndex(virt) < n ==> pageMap.NoBlock(v)
    }

    /** No page from `virt` on is mapped, or inside a block. */
    ghost predicate Vacant(virt: int, n: int)
      reads pageMap, pageMap.frames.Values
    {
      && NoBlocks(virt, n)
      && (forall v {:trigger pageMap.Entry(v)} :: 0 <= v && 0 <= PageIndex(v) - PageIndex(virt) < n ==>
            pageMap.Entry(v) == 0)
    }

    /** Takes a page and maps it; the page goes back if it cannot be mapped. */
    method MapOne(virt: int, flags: PageFlags, cache: int) returns (phys: int)
      requires pageMap.Valid() && 0 <= virt && CacheMode(cache) && pageMap.NoBlock(virt)
      modifies pageMap.pool, pageMap, pageMap.frames.Values
      ensures pageMap.Valid()
      ensures phys != 0 <==> 1 + Lacking(old(pageMap.node.Keys), virt) <= |old(pageMap.pool.free)|
      ensures phys != 0 ==> pageMap.node.Keys == old(pageMap.node.Keys) + Way(virt)
      ensures phys != 0 ==> |pageMap.pool.free| == |old(pageMap.pool.free)| - 1 - Lacking(old(pageMap.node.Keys), virt)
      ensures forall v {:trigger pageMap.NoBlock(v)} :: old(pageMap.NoBlock(v)) ==> pageMap.NoBlock(v)
      ensures phys != 0 ==> Aligned(phys) && phys in pageMap.frames && old(pageMap.Ours(phys))
      ensures forall f {:trigger pageMap.Ours(f)} ::
        pageMap.Ours(f) == (old(pageMap.Ours(f)) && (phys == 0 || f != phys))
      ensures forall v {:trigger pageMap.Entry(v)} :: 0 <= v ==>
        pageMap.Entry(v) == if phys != 0 && SamePage(v, virt)
                            then PageEntry(phys, flags, cache) else old(pageMap.Entry(v))
    {
      phys := TakePage();
      if phys == 0 {
        return;
      }
      var ok := pageMap.Map(virt, phys, flags, cache);
      if !ok {
        ReturnPage(phys);
        phys := 0;
      }
    }

    /** The pages from `virt` on are mapped to the pages of data `phys`. */
    ghost predicate Backed(virt: int, phys: seq<int>, flags: PageFlags, cache: int)
      reads pageMap, pageMap.pool, pageMap.frames.Values
    {
      && (forall v {:trigger pageMap.Entry(v)} :: 0 <= v && 0 <= PageIndex(v) - PageIndex(virt) < |phys| ==>
            pageMap.Entry(v) == PageEntry(phys[PageIndex(v) - PageIndex(virt)], flags, cache))
      && (forall j {:trigger phys[j]} :: 0 <= j < |phys| ==>
            Aligned(phys[j]) && phys[j] in pageMap.frames && !pageMap.Ours(phys[j]))
      && (forall v {:trigger pageMap.NoBlock(v)} :: 0 <= v && 0 <= PageIndex(v) - PageIndex(virt) < |phys| ==>
            pageMap.NoBlock(v))
      && Distinct(phys)
    }

    /** Unmaps one page and frees the page of data behind it. */
    method UnmapOne(virt: int, ghost p: int, ghost flags: PageFlags, ghost cache: int)
      requires pageMap.Valid() && 0 <= virt && virt % PAGE == 0 && CacheMode(cache) && pageMap.NoBlock(virt)
      requires pageMap.Entry(virt) == PageEntry(p, flags, cache) && Aligned(p) && p in pageMap.frames
      requires !pageMap.Ours(p)
      modifies pageMap.pool, pageMap.frames.Values
      ensures pageMap.Valid()
      ensures forall v {:trigger pageMap.NoBlock(v)} :: old(pageMap.NoBlock(v)) ==> pageMap.NoBlock(v)
      ensures forall f {:trigger pageMap.Ours(f)} :: pageMap.Ours(f) == (old(pageMap.Ours(f)) || f == p)
      ensures forall v {:trigger pageMap.Entry(v)} :: 0 <= v ==>
        pageMap.Entry(v) == if SamePage(v, virt) then 0 else old(pageMap.Entry(v))
    {
      var phys := pageMap.GetPhys(virt);
      EntryAddress(p, flags, cache);
      pageMap.Unmap(virt);
      ReturnPage(phys);
    }

    /** Unmaps the pages from `virt` on and frees the pages of data behind them. */
    method UnmapPages(virt: int, n: int, ghost phys: seq<int>, ghost flags: PageFlags, ghost cache: int)
      requires pageMap.Valid() && InWindow(virt, n) && |phys| == n && CacheMode(cache)
      requires Backed(virt, phys, flags, cache)
      modifies pageMap.pool, pageMap.frames.Values
      ensures pageMap.Valid()
      ensures forall v {:trigger pageMap.NoBlock(v)} :: old(pageMap.NoBlock(v)) ==> pageMap.NoBlock(v)
      ensures forall f {:trigger pageMap.Ours(f)} :: pageMap.Ours(f) == (old(pageMap.Ours(f)) || f in phys)
      ensures forall v {:trigger pageMap.Entry(v)} :: 0 <= v ==>
        pageMap.Entry(v) == if 0 <= PageIndex(v) - PageIndex(virt) < n then 0 else old(pageMap.Entry(v))
    {
      for j := 0 to n
        invariant pageMap.Valid()
        invariant forall v {:trigger pageMap.NoBlock(v)} :: old(pageMap.NoBlock(v)) ==> pageMap.NoBlock(v)
        invariant forall f {:trigger pageMap.Ours(f)} :: pageMap.Ours(f) == (old(pageMap.Ours(f)) || f in phys[..j])
        invariant forall v {:trigger pageMap.Entry(v)} :: 0 <= v ==>
          pageMap.Entry(v) == if 0 <= PageIndex(v) - PageIndex(virt) < j then 0 else old(pageMap.Entry(v))
      {
        PageNumberAt(virt, n, j);
        assert phys[j] !in phys[..j] && phys[..j + 1] == phys[..j] + [phys[j]];
        assert old(pageMap.NoBlock(virt + j * PAGE));
        UnmapOne(virt + j * PAGE, phys[j], flags, cache);
      }
      assert phys[..n] == phys;
    }

    /** Maps a page of data at the next page; 0 when pages have run out. */
    method MapNext(virt: int, n: int, i: int, flags: PageFlags, cache: int, ghost phys: seq<int>,
                   ghost entries: imap<int, int>, ghost ours: iset<int>)
      returns (p: int)
      requires pageMap.Valid() && InWindow(virt, n) && CacheMode(cache) && 0 <= i == |phys| < n
      requires pageMap.NoBlock(virt + i * PAGE)
      requires Mapped(entries, virt, phys, flags, cache) && Holds(ours, phys)
      modifies pageMap.pool, pageMap, pageMap.frames.Values
      ensures pageMap.Valid()
      ensures p != 0 <==> 1 + Lacking(old(pageMap.node.Keys), virt + i * PAGE) <= |old(pageMap.pool.free)|
      ensures p != 0 ==> pageMap.node.Keys == old(pageMap.node.Keys) + Way(virt + i * PAGE)
      ensures p != 0 ==>
        |pageMap.pool.free| == |old(pageMap.pool.free)| - 1 - Lacking(old(pageMap.node.Keys), virt + i * PAGE)
      ensures var phys' := if p == 0 then phys else phys + [p];
        Mapped(entries, virt, phys', flags, cache) && Holds(ours, phys')
      ensures forall v {:trigger pageMap.NoBlock(v)} :: old(pageMap.NoBlock(v)) ==> pageMap.NoBlock(v)
    {
      PageNumberAt(virt, n, i);
      p := MapOne(virt + i * PAGE, flags, cache);
    }

    /** The pages that stay free when `n` pages of data are mapped from `virt` on; negative when pages run out. */
    ghost function Spare(virt: int, n: nat): int
      reads pageMap, pageMap.pool
    {
      |pageMap.pool.free| - Cost(pageMap.node.Keys, virt, n)
    }

    /** Maps a page of data at the page `a`, the next one, and so pays for it. */
    method PayNext(virt: int, n: int, i: int, ghost a: int, ghost b: int, ghost left: nat, ghost rest: nat,
                   flags: PageFlags, cache: int,
                   ghost phys: seq<int>, ghost entries: imap<int, int>, ghost ours: iset<int>, ghost spare: int)
      returns (p: int)
      requires pageMap.Valid() && InWindow(virt, n) && CacheMode(cache) && 0 <= i == |phys| < n
      requires Spare(a, left) == spare
      requires a == virt + i * PAGE && b == a + PAGE && left == n - i && rest == left - 1 && pageMap.NoBlock(a)
      requires Mapped(entries, virt, phys, flags, cache) && Holds(ours, phys)
      modifies pageMap.pool, pageMap, pageMap.frames.Values
      ensures pageMap.Valid()
      ensures if p == 0 then spare < 0 else Spare(b, rest) == spare
      ensures var phys' := if p == 0 then phys else phys + [p];
        Mapped(entries, virt, phys', flags, cache) && Holds(ours, phys')
      ensures forall v {:trigger pageMap.NoBlock(v)} :: old(pageMap.NoBlock(v)) ==> pageMap.NoBlock(v)
    {
      p := MapNext(virt, n, i, flags, cache, phys, entries, ours);
    }

    lemma NoBlockAt(virt: int, n: int, i: int, a: int)
      requires NoBlocks(virt, n) && InWindow(virt, n) && 0 <= i < n && a == virt + i * PAGE
      ensures pageMap.NoBlock(a)
    {
      PageNumberAt(virt, n, i);
    }

    /** Maps a page of data at each of `n` pages from `virt` on, until pages run out. */
    method MapSome(virt: int, n: int, flags: PageFlags, cache: int, ghost spare: int)
      returns (i: int, ghost phys: seq<int>)
      requires pageMap.Valid() && InWindow(virt, n) && CacheMode(cache) && Vacant(virt, n)
      requires spare == Spare(virt, n)
      modifies pageMap.pool, pageMap, pageMap.frames.Values
      ensures pageMap.Valid() && 0 <= i == |phys| <= n && (i == n <==> spare >= 0)
      ensures i == n ==> |pageMap.pool.free| == spare
      ensures Mapped(old(Entries()), virt, phys, flags, cache) && Holds(old(OurPages()), phys)
      ensures forall v {:trigger pageMap.NoBlock(v)} :: old(pageMap.NoBlock(v)) ==> pageMap.NoBlock(v)
    {
      ghost var entries, ours := Entries(), OurPages();
      i, phys := 0, [];
      ghost var a, left := virt, n;
      while i < n
        invariant pageMap.Valid() && 0 <= i == |phys| <= n && Mapped(entries, virt, phys, flags, cache)
        invariant Holds(ours, phys)
        invariant forall v {:trigger pageMap.NoBlock(v)} :: old(pageMap.NoBlock(v)) ==> pageMap.NoBlock(v)
        invariant NoBlocks(virt, n)
        invariant a == virt + i * PAGE && left == n - i && Spare(a, left) == spare
      {
        NoBlockAt(virt, n, i, a);
        ghost var b, rest := a + PAGE, left - 1;
        var p := PayNext(virt, n, i, a, b, left, rest, flags, cache, phys, entries, ours, spare);
        if p == 0 {
          return;
        }
        phys := phys + [p];
        i, a, left := i + 1, b, rest;
      }
    }

    /** Unmapping the pages that were mapped restores the page table. */
    lemma Undone(entries: imap<int, int>, ours: iset<int>, virt: int, i: int, phys: seq<int>)
      requires forall v {:trigger v in entries} :: v in entries <==> 0 <= v
      requires forall v {:trigger pageMap.Entry(v)} :: 0 <= v && 0 <= PageIndex(v) - PageIndex(virt) < i ==>
        entries[v] == 0
      requires forall v {:trigger pageMap.Entry(v)} :: 0 <= v ==>
        pageMap.Entry(v) == if 0 <= PageIndex(v) - PageIndex(virt) < i then 0 else entries[v]
      requires forall f {:trigger pageMap.Ours(f)} :: pageMap.Ours(f) <==> f in ours
      ensures Entries() == entries && OurPages() == ours
    {
    }

    /** Maps a page of data at each of `n` pages from `virt` on; when pages run out, all is undone. */
    method MapPages(virt: int, n: int, flags: PageFlags, cache: int, ghost spare: int)
      returns (ok: bool, ghost phys: seq<int>)
      requires pageMap.Valid() && InWindow(virt, n) && CacheMode(cache) && Vacant(virt, n)
      requires spare == Spare(virt, n)
      modifies pageMap.pool, pageMap, pageMap.frames.Values
      ensures pageMap.Valid() && (ok <==> spare >= 0)
      ensures ok ==> |pageMap.pool.free| == spare
      ensures ok ==> |phys| == n && Mapped(old(Entries()), virt, phys, flags, cache) && Holds(old(OurPages()), phys)
      ensures !ok ==> Entries() == old(Entries()) && OurPages() == old(OurPages())
      ensures forall v {:trigger pageMap.NoBlock(v)} :: old(pageMap.NoBlock(v)) ==> pageMap.NoBlock(v)
    {
      var i;
      i, phys := MapSome(virt, n, flags, cache, spare);
      ok := i == n;
      if !ok {
        UnmapPages(virt, i, phys, flags, cache);
        Undone(old(Entries()), old(OurPages()), virt, i, phys);
      }
    }

    // ---------------------------------------------------------------- backed ranges

    /** What is not allocated is not mapped, and the arena holds no block entries. */
    ghost predicate Unmapped(blocks: map<int, int>)
      reads pageMap, pageMap.frames.Values
    {
      && (forall v {:trigger pageMap.NoBlock(v)} :: vmem.base <= v < vmem.base + vmem.size ==> pageMap.NoBlock(v))
      && (forall v {:trigger pageMap.Entry(v)} ::
            vmem.base <= v < vmem.base + vmem.size && v % PAGE == 0 && !InBlock(blocks, v) ==>
            pageMap.Entry(v) == 0)
    }

    ghost predicate Arena()
    {
      0 < vmem.base && 0 < vmem.size && vmem.base % PAGE == 0 && vmem.base % WINDOW + vmem.size <= WINDOW
    }

    lemma VacantBlock(blocks: map<int, int>, addr: int, n: int)
      requires Arena() && Unmapped(blocks) && addr % PAGE == 0 && 0 < n && vmem.base <= addr
      requires addr + n * PAGE <= vmem.base + vmem.size
      requires forall b {:trigger blocks[b]} :: b in blocks ==> b + blocks[b] <= addr || addr + n * PAGE <= b
      ensures InWindow(addr, n) && Vacant(addr, n)
    {
      WindowOffset(vmem.base, vmem.size, addr);
      forall v | 0 <= v && 0 <= PageIndex(v) - PageIndex(addr) < n
        ensures pageMap.NoBlock(v) && pageMap.Entry(v) == 0
      {
        var j := PageIndex(v) - PageIndex(addr);
        var w := addr + j * PAGE;
        PageNumberAt(addr, n, j);
        SamePageIndices(v, w);
        assert pageMap.NoBlock(w) && pageMap.Entry(w) == 0;
      }
    }

    lemma UnmappedAfter(blocks: map<int, int>, addr: int, n: int)
      requires Arena() && addr % PAGE == 0 && 0 < n && vmem.base <= addr && addr + n * PAGE <= vmem.base + vmem.size
      ensures forall v {:trigger PageIndex(v)} ::
        vmem.base <= v < vmem.base + vmem.size && !(addr <= v < addr + n * PAGE) ==>
        !(0 <= PageIndex(v) - PageIndex(addr) < n)
    {
      forall v {:trigger PageIndex(v)} | vmem.base <= v < vmem.base + vmem.size && !(addr <= v < addr + n * PAGE)
        ensures !(0 <= PageIndex(v) - PageIndex(addr) < n)
      {
        PageIndexIn(vmem.base, vmem.size, addr, v);
      }
    }

    /** The address space is in order. */
    ghost predicate Valid()
      reads this, vmem, vmem.segs, vmem.span, regions, regions.nodes, pageMap, pageMap.pool, pageMap.frames.Values
    {
      Ranges() && Arena() && pageMap.Valid() && Unmapped(vmem.blocks)
    }

    /** Maps pages; the allocator and the tree are not touched. */
    method Back(virt: int, n: int, flags: PageFlags, cache: int, ghost spare: int)
      returns (ok: bool, ghost phys: seq<int>)
      requires Ranges() && pageMap.Valid() && InWindow(virt, n) && CacheMode(cache) && Vacant(virt, n)
      requires spare == Spare(virt, n)
      modifies pageMap.pool, pageMap, pageMap.frames.Values
      ensures Ranges()
      ensures pageMap.Valid()
      ensures ok <==> spare >= 0
      ensures ok ==> |pageMap.pool.free| == spare
      ensures ok ==> |phys| == n && Mapped(old(Entries()), virt, phys, flags, cache) && Holds(old(OurPages()), phys)
      ensures !ok ==> Entries() == old(Entries()) && OurPages() == old(OurPages())
      ensures forall v {:trigger pageMap.NoBlock(v)} :: old(pageMap.NoBlock(v)) ==> pageMap.NoBlock(v)
    {
      ok, phys := MapPages(virt, n, flags, cache, spare);
    }

    /** Unmaps pages; the allocator and the tree are not touched. */
    method Unback(virt: int, n: int, ghost phys: seq<int>, ghost flags: PageFlags, ghost cache: int)
      requires Ranges() && pageMap.Valid() && InWindow(virt, n) && |phys| == n && CacheMode(cache)
      requires Backed(virt, phys, flags, cache)
      modifies pageMap.pool, pageMap.frames.Values
      ensures Ranges() && pageMap.Valid()
      ensures forall v {:trigger pageMap.NoBlock(v)} :: old(pageMap.NoBlock(v)) ==> pageMap.NoBlock(v)
      ensures forall f {:trigger pageMap.Ours(f)} :: pageMap.Ours(f) == (old(pageMap.Ours(f)) || f in phys)
      ensures forall v {:trigger pageMap.Entry(v)} :: 0 <= v ==>
        pageMap.Entry(v) == if 0 <= PageIndex(v) - PageIndex(virt) < n then 0 else old(pageMap.Entry(v))
    {
      UnmapPages(virt, n, phys, flags, cache);
    }

    /** A step that leaves the page table alone keeps it in order. */
    twostate lemma TableUntouched(blocks: map<int, int>)
      requires unchanged(pageMap) && unchanged(pageMap.pool) && unchanged(pageMap.frames.Values)
      requires old(pageMap.Valid()) && old(Unmapped(blocks))
      ensures pageMap.Valid() && Unmapped(blocks) && Entries() == old(Entries()) && OurPages() == old(OurPages())
    {
    }

    method AllocApart(size: int) returns (addr: int)
      requires Ranges() && 0 <= size < V.U64
      modifies this`sizes, this`regionAt, vmem, vmem.segs, regions, regions.nodes
      ensures Ranges() && unchanged(pageMap) && unchanged(pageMap.pool) && unchanged(pageMap.frames.Values)
      ensures addr == old(Where(size)) && (addr == 0 ==> old(NoRange(size)))
      ensures addr == 0 ==>
        vmem.blocks == old(vmem.blocks) && regions.nodes == old(regions.nodes) && sizes == old(sizes)
      ensures addr != 0 ==>
        && addr !in old(vmem.blocks) && vmem.blocks == old(vmem.blocks)[addr := V.AlignUp(size, PAGE)]
        && sizes == old(sizes)[addr := size] && addr in regionAt
        && regions.nodes == old(regions.nodes) + {regionAt[addr]} && fresh(regionAt[addr])
    {
      addr := Alloc(size);
    }

    method FreeApart(ptr: int, size: int)
      requires Ranges() && ptr in vmem.blocks && sizes[ptr] == size
      modifies this`sizes, this`regionAt, vmem, vmem.segs, regions, regions.nodes
      ensures Ranges() && unchanged(pageMap) && unchanged(pageMap.pool) && unchanged(pageMap.frames.Values)
      ensures vmem.blocks == old(vmem.blocks) - {ptr} && sizes == old(sizes) - {ptr}
      ensures regions.nodes == old(regions.nodes) - {old(regionAt)[ptr]}
    {
      Free(ptr, size);
    }

    /** Allocates a range; the page table is not touched. */
    method AllocRange(size: int) returns (addr: int)
      requires Ranges() && pageMap.Valid() && Unmapped(vmem.blocks) && 0 <= size < V.U64
      modifies this`sizes, this`regionAt, vmem, vmem.segs, regions, regions.nodes
      ensures Ranges() && pageMap.Valid() && Unmapped(old(vmem.blocks))
      ensures pageMap.pool.free == old(pageMap.pool.free) && pageMap.node == old(pageMap.node)
      ensures addr == old(Where(size)) && (addr == 0 ==> old(NoRange(size)))
      ensures Entries() == old(Entries()) && OurPages() == old(OurPages())
      ensures addr == 0 ==>
        vmem.blocks == old(vmem.blocks) && regions.nodes == old(regions.nodes) && sizes == old(sizes)
      ensures addr != 0 ==>
        && addr !in old(vmem.blocks) && vmem.blocks == old(vmem.blocks)[addr := V.AlignUp(size, PAGE)]
        && sizes == old(sizes)[addr := size] && addr in regionAt
        && regions.nodes == old(regions.nodes) + {regionAt[addr]} && fresh(regionAt[addr])
    {
      addr := AllocApart(size);
      TableUntouched(old(vmem.blocks));
    }

    /** Frees a range; the page table is not touched. */
    method FreeRange(ptr: int, size: int, ghost blocks: map<int, int>)
      requires Ranges() && pageMap.Valid() && ptr in vmem.blocks && sizes[ptr] == size && Unmapped(blocks)
      modifies this`sizes, this`regionAt, vmem, vmem.segs, regions, regions.nodes
      ensures Ranges() && pageMap.Valid() && Unmapped(blocks)
      ensures Entries() == old(Entries()) && OurPages() == old(OurPages())
      ensures vmem.blocks == old(vmem.blocks) - {ptr} && sizes == old(sizes) - {ptr}
      ensures regions.nodes == old(regions.nodes) - {old(regionAt)[ptr]}
    {
      FreeApart(ptr, size);
      TableUntouched(blocks);
    }

    /** The same entries leave the same pages unmapped. */
    twostate lemma SameUnmapped(blocks: map<int, int>)
      requires old(Unmapped(blocks)) && Entries() == old(Entries()) && Arena()
      requires forall v {:trigger pageMap.NoBlock(v)} :: old(pageMap.NoBlock(v)) ==> pageMap.NoBlock(v)
      ensures Unmapped(blocks)
    {
      forall v {:trigger pageMap.Entry(v)} | 0 <= v ensures pageMap.Entry(v) == old(pageMap.Entry(v)) {
        assert Entries()[v] == old(Entries())[v];
      }
    }

    /** Mapping the pages of a new block leaves what is not allocated unmapped. */
    twostate lemma StillUnmapped(x: NewPages)
      requires var NewPages(before, addr, phys, flags, cache) := x;
        && Arena() && old(Unmapped(before)) && Mapped(old(Entries()), addr, phys, flags, cache) && addr !in before
        && 0 < |phys|
        && addr % PAGE == 0 && vmem.base <= addr && addr + |phys| * PAGE <= vmem.base + vmem.size
      requires forall v {:trigger pageMap.NoBlock(v)} :: old(pageMap.NoBlock(v)) ==> pageMap.NoBlock(v)
      ensures Unmapped(x.before[x.addr := |x.phys| * PAGE])
    {
      var NewPages(before, addr, phys, flags, cache) := x;
      var n := |phys|;
      var blocks := before[addr := n * PAGE];
      UnmappedAfter(before, addr, n);
      forall v {:trigger pageMap.Entry(v)}
        | vmem.base <= v < vmem.base + vmem.size && v % PAGE == 0 && !InBlock(blocks, v)
        ensures pageMap.Entry(v) == 0
      {
        assert blocks[addr] == n * PAGE;
        assert forall b {:trigger before[b]} :: b in before ==> b in blocks && blocks[b] == before[b];
        assert !InBlock(before, v);
        assert old(pageMap.Entry(v)) == 0;
        assert PageIndex(v) == PageIndex(v);
      }
    }

    /** Maps all pages of the new block at `addr`, or none. */
    method BackBlock(addr: int, n: int, flags: PageFlags, cache: int, ghost before: map<int, int>, ghost spare: int)
      returns (ok: bool, ghost phys: seq<int>)
      requires Ranges() && Arena() && pageMap.Valid() && Unmapped(before) && InWindow(addr, n) && Vacant(addr, n)
      requires CacheMode(cache)
      requires addr !in before && 0 < n && vmem.base <= addr && addr + n * PAGE <= vmem.base + vmem.size
      requires spare == Spare(addr, n)
      modifies pageMap.pool, pageMap, pageMap.frames.Values
      ensures Ranges() && pageMap.Valid() && Unmapped(if ok then before[addr := n * PAGE] else before)
      ensures ok <==> spare >= 0
      ensures ok ==> |pageMap.pool.free| == spare
      ensures ok ==> |phys| == n && Mapped(old(Entries()), addr, phys, flags, cache) && Holds(old(OurPages()), phys)
      ensures !ok ==> Entries() == old(Entries()) && OurPages() == old(OurPages())
    {
      ok, phys := Back(addr, n, flags, cache, spare);
      if ok {
        StillUnmapped(NewPages(before, addr, phys, flags, cache));
      } else {
        SameUnmapped(before);
      }
    }

    /** The range at `addr`, which was not allocated `before`, is mapped or given back. */
    method BackNew(addr: int, size: int, n: int, flags: PageFlags, cache: int, ghost before: map<int, int>,
                   ghost spare: int)
      returns (ok: bool, ghost phys: seq<int>)
      requires Ranges() && Arena() && pageMap.Valid() && Unmapped(before) && InWindow(addr, n) && Vacant(addr, n)
      requires CacheMode(cache)
      requires addr !in before && vmem.blocks == before[addr := n * PAGE] && addr in sizes && sizes[addr] == size
      requires 0 < n
      requires vmem.base <= addr && addr + n * PAGE <= vmem.base + vmem.size
      requires spare == Spare(addr, n)
      modifies this`sizes, this`regionAt, vmem, vmem.segs, regions, regions.nodes, pageMap, pageMap.pool
      modifies pageMap.frames.Values
      ensures Valid() && vmem.blocks == if ok then before[addr := n * PAGE] else before
      ensures ok <==> spare >= 0
      ensures ok ==> |pageMap.pool.free| == spare
      ensures ok ==> sizes == old(sizes) && regions.nodes == old(regions.nodes)
      ensures ok ==> |phys| == n && Mapped(old(Entries()), addr, phys, flags, cache) && Holds(old(OurPages()), phys)
      ensures !ok ==> sizes == old(sizes) - {addr} && regions.nodes == old(regions.nodes) - {old(regionAt)[addr]}
      ensures !ok ==> Entries() == old(Entries()) && OurPages() == old(OurPages())
    {
      V.PutAndTake(before, addr, n * PAGE);
      ok, phys := BackBlock(addr, n, flags, cache, before, spare);
      if !ok {
        FreeRange(addr, size, before);
      }
    }

    lemma VacantEntries(addr: int, n: int)
      requires Vacant(addr, n)
      ensures WasVacant(Entries(), addr, n)
    {
    }

    /** Where `alloc_backed` puts a range of `size` bytes: where the allocator does, if there are enough free pages for
        its data and for the tables that are missing; 0 if it does not. */
    ghost function Target(size: int): int
      reads vmem, vmem.segs, pageMap, pageMap.pool
    {
      var addr, n := Where(size), V.AlignUp(size, PAGE) / PAGE;
      if addr == 0 || n < 0 || Spare(addr, n) < 0 then 0 else addr
    }

    lemma TargetSpare(size: int) returns (spare: int)
      requires 0 <= V.AlignUp(size, PAGE)
      ensures spare == Spare(Where(size), V.AlignUp(size, PAGE) / PAGE)
      ensures Target(size) == if Where(size) == 0 || spare < 0 then 0 else Where(size)
    {
      spare := Spare(Where(size), V.AlignUp(size, PAGE) / PAGE);
    }

    lemma SpareIs(addr: int, n: nat, free: seq<int>, tables: set<Place>)
      requires pageMap.pool.free == free && pageMap.node.Keys == tables
      ensures Spare(addr, n) == |free| - Cost(tables, addr, n)
    {
    }

    lemma SpareBound(addr: int, n: nat)
      ensures Spare(addr, n) >= |pageMap.pool.free| - 4 * n
    {
      CostBound(pageMap.node.Keys, addr, n);
    }

    /** Allocates a range; none of its `n` pages is mapped. */
    method AllocVacant(size: int) returns (addr: int, n: int)
      requires Valid() && 0 <= size < V.U64
      modifies this`sizes, this`regionAt, vmem, vmem.segs, regions, regions.nodes
      ensures Ranges() && pageMap.Valid() && Unmapped(old(vmem.blocks)) && n * PAGE == V.AlignUp(size, PAGE)
      ensures pageMap.pool.free == old(pageMap.pool.free) && pageMap.node == old(pageMap.node)
      ensures addr == old(Where(size)) && (addr == 0 ==> old(NoRange(size)))
      ensures Entries() == old(Entries()) && OurPages() == old(OurPages())
      ensures addr == 0 ==>
        vmem.blocks == old(vmem.blocks) && regions.nodes == old(regions.nodes) && sizes == old(sizes)
      ensures addr != 0 ==>
        && addr !in old(vmem.blocks) && vmem.blocks == old(vmem.blocks)[addr := n * PAGE]
        && sizes == old(sizes)[addr := size]
        && addr in regionAt && fresh(regionAt[addr]) && fresh(regions.nodes - old(regions.nodes))
        && sizes - {addr} == old(sizes) && regions.nodes - {regionAt[addr]} == old(regions.nodes)
        && 0 < n && vmem.base <= addr && addr + n * PAGE <= vmem.base + vmem.size && InWindow(addr, n)
        && Vacant(addr, n)
        && WasVacant(Entries(), addr, n)
    {
      ghost var before, nodes := vmem.blocks, regions.nodes;
      n := V.AlignUp(size, PAGE) / PAGE;
      PagesOf(size);
      addr := AllocRange(size);
      if addr != 0 {
        NewRange(before, addr, n);
        VacantEntries(addr, n);
        PutAndTakeNode(nodes, regionAt[addr]);
        V.PutAndTake(old(sizes), addr, size);
      }
    }

    /** The same, with the pages that will stay free. */
    method AllocPlace(size: int, ghost place: int, ghost count: nat, ghost spare: int) returns (addr: int, n: int)
      requires Valid() && 0 <= size < V.U64 && count * PAGE == V.AlignUp(size, PAGE)
      requires place == Where(size) && spare == Spare(place, count)
      modifies this`sizes, this`regionAt, vmem, vmem.segs, regions, regions.nodes
      ensures Ranges() && pageMap.Valid() && Unmapped(old(vmem.blocks))
      ensures n == count && addr == place && spare == Spare(place, count) && (addr == 0 ==> old(NoRange(size)))
      ensures Entries() == old(Entries()) && OurPages() == old(OurPages())
      ensures addr == 0 ==>
        vmem.blocks == old(vmem.blocks) && regions.nodes == old(regions.nodes) && sizes == old(sizes)
      ensures addr != 0 ==>
        && addr !in old(vmem.blocks) && vmem.blocks == old(vmem.blocks)[addr := n * PAGE]
        && sizes == old(sizes)[addr := size]
        && addr in regionAt && fresh(regionAt[addr]) && fresh(regions.nodes - old(regions.nodes))
        && sizes - {addr} == old(sizes) && regions.nodes - {regionAt[addr]} == old(regions.nodes)
        && 0 < n && vmem.base <= addr && addr + n * PAGE <= vmem.base + vmem.size && InWindow(addr, n)
        && Vacant(addr, n)
        && WasVacant(Entries(), addr, n)
    {
      ghost var free, tables := pageMap.pool.free, pageMap.node.Keys;
      SpareIs(place, count, free, tables);
      addr, n := AllocVacant(size);
      SpareIs(place, count, free, tables);
    }

    /** The range at `place` is reserved and its pages are mapped, or nothing is changed. */
    method AllocAt(size: int, flags: PageFlags, cache: int, ghost place: int, ghost count: nat, ghost spare: int)
      returns (addr: int, ghost phys: seq<int>)
      requires Valid() && 0 <= size < V.U64 && CacheMode(cache) && count * PAGE == V.AlignUp(size, PAGE)
      requires place == Where(size) && spare == Spare(place, count)
      modifies this`sizes, this`regionAt, vmem, vmem.segs, regions, regions.nodes, pageMap, pageMap.pool
      modifies pageMap.frames.Values
      ensures Valid() && addr == (if place == 0 || spare < 0 then 0 else place) && (place == 0 ==> old(NoRange(size)))
      ensures addr == 0 ==>
        && vmem.blocks == old(vmem.blocks) && regions.nodes == old(regions.nodes) && sizes == old(sizes)
        && Entries() == old(Entries()) && OurPages() == old(OurPages())
      ensures addr != 0 ==>
        && |phys| == count && addr !in old(vmem.blocks)
        && vmem.blocks == old(vmem.blocks)[addr := |phys| * PAGE] && sizes == old(sizes)[addr := size]
        && Mapped(old(Entries()), addr, phys, flags, cache) && Holds(old(OurPages()), phys)
        && WasVacant(old(Entries()), addr, |phys|) && |pageMap.pool.free| == spare
      ensures fresh(regions.nodes - old(regions.nodes))
    {
      phys := [];
      ghost var before := vmem.blocks;
      var n;
      addr, n := AllocPlace(size, place, count, spare);
      if addr != 0 {
        var ok;
        ok, phys := BackNew(addr, size, n, flags, cache, before, spare);
        if !ok {
          addr := 0;
        }
      }
    }

    /** `alloc_backed`: a range with a page of data behind each of its pages, or nothing at all. */
    method AllocBacked(size: int, flags: PageFlags, cache: int) returns (addr: int, ghost phys: seq<int>)
      requires Valid() && 0 <= size < V.U64 && CacheMode(cache)
      modifies this`sizes, this`regionAt, vmem, vmem.segs, regions, regions.nodes, pageMap, pageMap.pool
      modifies pageMap.frames.Values
      ensures Valid() && addr == old(Target(size))
      ensures addr == 0 ==> old(NoRange(size)) || |old(pageMap.pool.free)| < 4 * (V.AlignUp(size, PAGE) / PAGE)
      ensures addr == 0 ==>
        && vmem.blocks == old(vmem.blocks) && regions.nodes == old(regions.nodes) && sizes == old(sizes)
        && Entries() == old(Entries()) && OurPages() == old(OurPages())
      ensures addr != 0 ==>
        && |phys| * PAGE == V.AlignUp(size, PAGE) && addr !in old(vmem.blocks)
        && vmem.blocks == old(vmem.blocks)[addr := |phys| * PAGE] && sizes == old(sizes)[addr := size]
        && Mapped(old(Entries()), addr, phys, flags, cache) && Holds(old(OurPages()), phys)
        && WasVacant(old(Entries()), addr, |phys|) && |pageMap.pool.free| == old(Spare(addr, |phys|))
      ensures fresh(regions.nodes - old(regions.nodes))
    {
      V.AlignUpWord(size, PAGE);
      ghost var place, n := Where(size), V.AlignUp(size, PAGE) / PAGE;
      ghost var spare := TargetSpare(size);
      SpareBound(place, n);
      PagesOf(size);
      addr, phys := AllocAt(size, flags, cache, place, n, spare);
    }

    /** In an address space without ranges, `alloc_backed` succeeds when the request fits into the arena, two
        descriptors are left, and there are four pages for each page of data. */
    method AllocFirst(size: int, flags: PageFlags, cache: int) returns (addr: int, ghost phys: seq<int>)
      requires Valid() && vmem.blocks == map[] && vmem.Descriptors() >= 2 && 0 <= size < V.U64 && CacheMode(cache)
      requires 0 < V.AlignUp(size, PAGE) <= vmem.size && 4 * (V.AlignUp(size, PAGE) / PAGE) <= |pageMap.pool.free|
      modifies this`sizes, this`regionAt, vmem, vmem.segs, regions, regions.nodes, pageMap, pageMap.pool
      modifies pageMap.frames.Values
      ensures Valid() && addr != 0 && vmem.blocks == map[addr := V.AlignUp(size, PAGE)]
      ensures |phys| * PAGE == V.AlignUp(size, PAGE)
      ensures Mapped(old(Entries()), addr, phys, flags, cache) && Holds(old(OurPages()), phys)
    {
      vmem.FreshRoom(V.AlignUp(size, PAGE));
      addr, phys := AllocBacked(size, flags, cache);
    }

    lemma WhereIs(size: int)
      requires vmem.quantum == PAGE && V.AlignUp(size, PAGE) > 0
      ensures Where(size) == vmem.Choice(V.AlignUp(size, PAGE), 0, V.U64 - 1)
    {
    }

    lemma PageWhere()
      requires Ranges() && vmem.size == 0x2000
      ensures vmem.blocks == map[] && vmem.Descriptors() >= 1 ==> Where(PAGE) == vmem.base
      ensures vmem.blocks == map[vmem.base := PAGE] ==> Where(PAGE) == vmem.base + PAGE
    {
      V.AlignUpExact(1, PAGE);
      WhereIs(PAGE);
      if vmem.blocks == map[] && vmem.Descriptors() >= 1 {
        vmem.FreshServed(PAGE);
      }
      if vmem.blocks == map[vmem.base := PAGE] {
        vmem.LastServed(PAGE);
      }
    }

    method AllocPage(flags: PageFlags, cache: int, ghost spare: int) returns (addr: int)
      requires Valid() && CacheMode(cache) && Where(PAGE) != 0 && spare == Spare(Where(PAGE), 1) && spare >= 0
      modifies this`sizes, this`regionAt, vmem, vmem.segs, regions, regions.nodes, pageMap, pageMap.pool
      modifies pageMap.frames.Values
      ensures Valid() && addr == old(Where(PAGE)) && vmem.blocks == old(vmem.blocks)[addr := PAGE]
      ensures |pageMap.pool.free| == spare && 0 <= addr && pageMap.Entry(addr) != 0
      ensures fresh(regions.nodes - old(regions.nodes))
    {
      V.AlignUpExact(1, PAGE);
      ghost var phys;
      addr, phys := AllocBacked(PAGE, flags, cache);
      assert |phys| == 1;
      assert addr in old(Entries()) by {
        BlockInside(addr);
      }
      EntryAddress(phys[0], flags, cache);
    }

    /** A page next to one that is mapped, in the same table, costs only itself. */
    lemma NextIsCheap(virt: int)
      requires pageMap.Valid() && 0 <= virt && virt % 0x20_0000 == 0 && pageMap.Entry(virt) != 0
      ensures Spare(virt + PAGE, 1) == |pageMap.pool.free| - 1
    {
      pageMap.MappedHasWay(virt);
      SameTables(virt);
      NothingLacking(pageMap.node.Keys, virt + PAGE);
    }

    /** With one page left in the pool a second page of the same table can be had. */
    method AllocTwo(flags: PageFlags, cache: int) returns (first: int, second: int)
      requires Valid() && CacheMode(cache) && vmem.blocks == map[] && vmem.Descriptors() >= 2
      requires vmem.size == 0x2000 && vmem.base % 0x20_0000 == 0 && Spare(vmem.base, 1) == 1
      modifies this`sizes, this`regionAt, vmem, vmem.segs, regions, regions.nodes, pageMap, pageMap.pool
      modifies pageMap.frames.Values
      ensures Valid() && first == vmem.base && second == first + PAGE && pageMap.pool.free == []
      ensures vmem.blocks == map[first := PAGE, second := PAGE]
    {
      PageWhere();
      first := AllocPage(flags, cache, 1);
      PageWhere();
      NextIsCheap(first);
      second := AllocPage(flags, cache, 0);
    }

    /** A pool of six pages is enough for this: one for the root, three for tables and two for data. */
    static method SixPagesSuffice(base: int, supply: seq<seq<V.Segment>>, ghost segs: set<V.Segment>,
                                  frames: map<int, array<int>>, ghost home: map<array<int>, int>, pool: PagePool,
                                  flags: PageFlags, cache: int)
      returns (space: VirtualSpace, first: int, second: int)
      requires base > 0 && base % 0x20_0000 == 0 && base + 0x2000 < V.U64 && CacheMode(cache)
      requires |supply| > 0 && V.Pages(supply, segs) && forall s {:trigger s.on} :: s in segs ==> !s.on
      requires PageMemory(frames, home) && |pool.free| == 6 && Distinct(pool.free)
      requires forall k {:trigger pool.free[k]} :: 0 <= k < |pool.free| ==> pool.free[k] in frames
      modifies segs, pool, frames.Values
      ensures first == base && second == base + PAGE && pool.free == []
    {
      space := Create(base, 0x2000, supply, segs, frames, home, pool);
      assert space.Spare(base, 1) == 1;
      first, second := space.AllocTwo(flags, cache);
    }

    lemma NewRange(before: map<int, int>, addr: int, n: int)
      requires vmem.Valid() && Arena() && Paged(vmem.blocks) && addr !in before
      requires vmem.blocks == before[addr := n * PAGE]
      requires Unmapped(before)
      ensures 0 < n && vmem.base <= addr && addr + n * PAGE <= vmem.base + vmem.size && InWindow(addr, n)
      ensures Vacant(addr, n)
    {
      vmem.NewBlockApart(before, addr, n * PAGE);
      vmem.ViewFacts();
      assert vmem.blocks[addr] == n * PAGE > 0 by {
        Extents.TilesBounds(vmem.View(), vmem.base, vmem.base + vmem.size);
      }
      VacantBlock(before, addr, n);
    }

    /** A live block lies inside the arena. */
    lemma BlockInside(ptr: int)
      requires vmem.Valid() && Arena() && Paged(vmem.blocks) && ptr in vmem.blocks
      ensures vmem.base <= ptr && 0 < vmem.blocks[ptr] && ptr + vmem.blocks[ptr] <= vmem.base + vmem.size
      ensures InWindow(ptr, vmem.blocks[ptr] / PAGE)
    {
      vmem.ViewFacts();
      Extents.TilesBounds(vmem.View(), vmem.base, vmem.base + vmem.size);
      assert vmem.blocks[ptr] % PAGE == 0;
      WindowOffset(vmem.base, vmem.size, ptr);
    }

    /** Unmapping the pages of a block that is freed leaves what is not allocated unmapped. */
    twostate lemma UnmappedWithout(x: OldPages)
      requires var OldPages(blocks, ptr, n) := x;
        && Arena() && old(Unmapped(blocks)) && ptr in blocks && blocks[ptr] == n * PAGE && 0 < n
        && ptr % PAGE == 0 && vmem.base <= ptr && ptr + n * PAGE <= vmem.base + vmem.size
      requires forall v {:trigger pageMap.NoBlock(v)} :: old(pageMap.NoBlock(v)) ==> pageMap.NoBlock(v)
      requires forall v {:trigger pageMap.Entry(v)} :: 0 <= v ==>
        pageMap.Entry(v) == if 0 <= PageIndex(v) - PageIndex(x.ptr) < x.n then 0 else old(pageMap.Entry(v))
      ensures Unmapped(x.blocks - {x.ptr})
    {
      var OldPages(blocks, ptr, n) := x;
      forall v {:trigger pageMap.Entry(v)}
        | vmem.base <= v < vmem.base + vmem.size && v % PAGE == 0 && !InBlock(blocks - {ptr}, v)
        ensures pageMap.Entry(v) == 0
      {
        PageIndexIn(vmem.base, vmem.size, ptr, v);
        if !(ptr <= v < ptr + n * PAGE) {
          assert forall b {:trigger blocks[b]} ::
            b in blocks && b != ptr ==> b in blocks - {ptr} && (blocks - {ptr})[b] == blocks[b];
          assert !InBlock(blocks, v);
          assert old(pageMap.Entry(v)) == 0;
        }
      }
    }

    lemma AllCleared(entries: imap<int, int>, ours: iset<int>, ptr: int, n: int, phys: seq<int>)
      requires forall v {:trigger v in entries} :: v in entries <==> 0 <= v
      requires forall v {:trigger pageMap.Entry(v)} :: 0 <= v ==>
        pageMap.Entry(v) == if 0 <= PageIndex(v) - PageIndex(ptr) < n then 0 else entries[v]
      requires forall f {:trigger pageMap.Ours(f)} :: pageMap.Ours(f) <==> f in ours || f in phys
      ensures Entries() == Cleared(entries, ptr, n) && OurPages() == ours + iset f | f in phys
    {
    }

    /** Unmaps the pages of a block; the block is still live. */
    method UnbackBlock(ptr: int, n: int, ghost phys: seq<int>, ghost flags: PageFlags, ghost cache: int)
      requires Valid() && ptr in vmem.blocks && n * PAGE == vmem.blocks[ptr] && |phys| == n && CacheMode(cache)
      requires Backed(ptr, phys, flags, cache)
      modifies pageMap.pool, pageMap.frames.Values
      ensures Ranges() && pageMap.Valid() && Unmapped(vmem.blocks - {ptr})
      ensures Entries() == Cleared(old(Entries()), ptr, n) && OurPages() == old(OurPages()) + iset f | f in phys
    {
      BlockInside(ptr);
      Unback(ptr, n, phys, flags, cache);
      UnmappedWithout(OldPages(vmem.blocks, ptr, n));
      AllCleared(old(Entries()), old(OurPages()), ptr, n, phys);
    }

    /** `free_backed`: the pages behind the range go back, and then the range. */
    method FreeBacked(ptr: int, size: int, ghost phys: seq<int>, ghost flags: PageFlags, ghost cache: int)
      requires Valid() && ptr in vmem.blocks && sizes[ptr] == size && |phys| * PAGE == vmem.blocks[ptr]
      requires CacheMode(cache)
      requires Backed(ptr, phys, flags, cache)
      modifies this`sizes, this`regionAt, vmem, vmem.segs, regions, regions.nodes, pageMap.pool, pageMap.frames.Values
      ensures Valid() && vmem.blocks == old(vmem.blocks) - {ptr} && sizes == old(sizes) - {ptr}
      ensures regions.nodes == old(regions.nodes) - {old(regionAt)[ptr]}
      ensures Entries() == Cleared(old(Entries()), ptr, |phys|) && OurPages() == old(OurPages()) + iset f | f in phys
    {
      PagesOf(size);
      var n := V.AlignUp(size, PAGE) / PAGE;
      assert vmem.blocks[ptr] == V.AlignUp(size, PAGE);
      ghost var rest := vmem.blocks - {ptr};
      UnbackBlock(ptr, n, phys, flags, cache);
      FreeRange(ptr, size, rest);
    }

    /** What `alloc_backed` has mapped is what `free_backed` expects. */
    lemma BackedNow(entries: imap<int, int>, ours: iset<int>, addr: int, phys: seq<int>, flags: PageFlags, cache: int)
      requires Valid() && addr in vmem.blocks && vmem.blocks[addr] == |phys| * PAGE
      requires forall v {:trigger v in entries} :: v in entries <==> 0 <= v
      requires Mapped(entries, addr, phys, flags, cache) && Holds(ours, phys)
      ensures Backed(addr, phys, flags, cache)
    {
      BlockInside(addr);
      forall v {:trigger pageMap.NoBlock(v)} | 0 <= v && 0 <= PageIndex(v) - PageIndex(addr) < |phys|
        ensures pageMap.NoBlock(v)
      {
        var j := PageIndex(v) - PageIndex(addr);
        PageNumberAt(addr, |phys|, j);
        SamePageIndices(v, addr + j * PAGE);
        assert pageMap.NoBlock(addr + j * PAGE);
      }
    }

    /** With an address inside a backed block the processor gets to the page of data behind it. */
    lemma BackedIsSeen(ptr: int, phys: seq<int>, flags: PageFlags, cache: int, v: int)
      requires pageMap.Valid() && CacheMode(cache) && Backed(ptr, phys, flags, cache)
      requires 0 <= v && 0 <= PageIndex(v) - PageIndex(ptr) < |phys|
      ensures var p := phys[PageIndex(v) - PageIndex(ptr)];
        pageMap.Seen(v) == Mmu.To(p + v % PAGE, PageEntry(p, flags, cache))
    {
      var p := phys[PageIndex(v) - PageIndex(ptr)];
      assert pageMap.NoBlock(v) && Aligned(p);
      pageMap.SeenIs(v);
      EntryAddress(p, flags, cache);
      EntryFlags(p, flags, cache);
    }

    lemma ClearedAgain(entries: imap<int, int>, ours: iset<int>, now: imap<int, int>, addr: int, phys: seq<int>,
                       flags: PageFlags, cache: int)
      requires forall v {:trigger v in entries} :: v in entries <==> 0 <= v
      requires now == Entries() && Mapped(entries, addr, phys, flags, cache) && Holds(ours, phys)
      requires WasVacant(entries, addr, |phys|)
      ensures Cleared(now, addr, |phys|) == entries && OurPages() + (iset f | f in phys) == ours
    {
      forall f | f in phys ensures f in ours {
        var j :| 0 <= j < |phys| && phys[j] == f;
      }
      forall f {:trigger f in ours} ensures f in ours <==> pageMap.Ours(f) || f in phys {
      }
    }

    /** Freeing what was just allocated restores the address space, the page table and the pages. */
    method AllocateAndFree(size: int, flags: PageFlags, cache: int) returns (addr: int)
      requires Valid() && 0 <= size < V.U64 && CacheMode(cache)
      modifies this`sizes, this`regionAt, vmem, vmem.segs, regions, regions.nodes, pageMap, pageMap.pool
      modifies pageMap.frames.Values
      ensures Valid() && vmem.blocks == old(vmem.blocks) && sizes == old(sizes)
      ensures Entries() == old(Entries()) && OurPages() == old(OurPages())
    {
      ghost var entries, ours := Entries(), OurPages();
      ghost var phys;
      addr, phys := AllocBacked(size, flags, cache);
      if addr != 0 {
        BackedNow(entries, ours, addr, phys, flags, cache);
        ClearedAgain(entries, ours, Entries(), addr, phys, flags, cache);
        V.PutAndTake(old(vmem.blocks), addr, |phys| * PAGE);
        V.PutAndTake(old(sizes), addr, size);
        FreeBacked(addr, size, phys, flags, cache);
      }
    }

    // ---------------------------------------------------------------- every run

    /** Live blocks are made of different pages. */
    lemma BlocksIndexApart(b: int, c: int)
      requires vmem.Valid() && Arena() && Paged(vmem.blocks) && b in vmem.blocks && c in vmem.blocks && b != c
      ensures IndexApart(b, vmem.blocks[b] / PAGE, c, vmem.blocks[c] / PAGE)
    {
      BlockInside(b);
      BlockInside(c);
      vmem.BlocksApart(b, c);
      PageIndexIn(vmem.base, vmem.size, b, c);
      assert b % PAGE == 0 && c % PAGE == 0;
      WholePages(b, vmem.blocks[b], c, vmem.blocks[c]);
    }

    /** The block at `ptr` is what `free_backed` expects. */
    lemma BackedFrom(ptr: int, k: Backing)
      requires Valid() && ptr in vmem.blocks && |k.phys| * PAGE == vmem.blocks[ptr]
      requires BackedIn(Entries(), OurPages(), pageMap.frames.Keys, ptr, k)
      ensures Backed(ptr, k.phys, k.flags, k.cache)
    {
      BlockInside(ptr);
      forall v {:trigger pageMap.NoBlock(v)} | 0 <= v && 0 <= PageIndex(v) - PageIndex(ptr) < |k.phys|
        ensures pageMap.NoBlock(v)
      {
        var j := PageIndex(v) - PageIndex(ptr);
        PageNumberAt(ptr, |k.phys|, j);
        SamePageIndices(v, ptr + j * PAGE);
        assert pageMap.NoBlock(ptr + j * PAGE);
      }
      forall v {:trigger pageMap.Entry(v)} | 0 <= v && 0 <= PageIndex(v) - PageIndex(ptr) < |k.phys|
        ensures pageMap.Entry(v) == PageEntry(k.phys[PageIndex(v) - PageIndex(ptr)], k.flags, k.cache)
      {
        assert Entries()[v] == pageMap.Entry(v);
      }
    }

    /** What `alloc_backed` has mapped is backed. */
    lemma NewlyBacked(entries: imap<int, int>, ours: iset<int>, addr: int, k: Backing)
      requires pageMap.Valid() && CacheMode(k.cache) && forall v {:trigger v in entries} :: v in entries <==> 0 <= v
      requires Mapped(entries, addr, k.phys, k.flags, k.cache) && Holds(ours, k.phys)
      ensures NewBacking(entries, ours, Entries(), OurPages(), pageMap.frames.Keys, addr, k)
    {
      forall v {:trigger Entries()[v]} | v in Entries()
        ensures Entries()[v] == if 0 <= PageIndex(v) - PageIndex(addr) < |k.phys|
                                then PageEntry(k.phys[PageIndex(v) - PageIndex(addr)], k.flags, k.cache) else entries[v]
      {
        assert Entries()[v] == pageMap.Entry(v);
      }
    }

    lemma NewIndexApart(entries: imap<int, int>, ours: iset<int>, blocks: map<int, int>, backed: map<int, Backing>,
                        addr: int, n: int)
      requires vmem.Valid() && Arena() && Paged(vmem.blocks) && addr !in blocks
      requires vmem.blocks == blocks[addr := n * PAGE]
      requires AllBacked(entries, ours, pageMap.frames.Keys, blocks, backed)
      ensures forall b {:trigger backed[b]} :: b in backed ==> IndexApart(b, |backed[b].phys|, addr, n)
    {
      forall b {:trigger backed[b]} | b in backed ensures IndexApart(b, |backed[b].phys|, addr, n) {
        BlocksIndexApart(b, addr);
      }
    }

    /** The new block, if there is one, joins the backed ones. */
    lemma AddBacking(entries: imap<int, int>, ours: iset<int>, entries': imap<int, int>, ours': iset<int>,
                     blocks: map<int, int>, backed: map<int, Backing>, addr: int, k: Backing)
      returns (backed': map<int, Backing>)
      requires vmem.Valid() && Arena() && Paged(vmem.blocks)
      requires AllBacked(entries, ours, pageMap.frames.Keys, blocks, backed)
      requires addr == 0 ==> vmem.blocks == blocks && entries' == entries && ours' == ours
      requires addr != 0 ==> addr !in blocks && vmem.blocks == blocks[addr := |k.phys| * PAGE]
      requires addr != 0 ==> NewBacking(entries, ours, entries', ours', pageMap.frames.Keys, addr, k)
      ensures AllBacked(entries', ours', pageMap.frames.Keys, vmem.blocks, backed')
      ensures backed' == (if addr == 0 then backed else backed[addr := k]) && (addr != 0 ==> addr !in backed)
      ensures backed.Keys == blocks.Keys ==> backed'.Keys == vmem.blocks.Keys
    {
      backed' := backed;
      if addr != 0 {
        backed' := backed[addr := k];
        NewIndexApart(entries, ours, blocks, backed, addr, |k.phys|);
        BackedAfterAlloc(entries, ours, entries', ours', pageMap.frames.Keys, blocks, backed, addr, k);
        SameKeys(backed, blocks, addr, k, |k.phys| * PAGE);
      }
    }

    method AllocBacking(size: int, flags: PageFlags, cache: int) returns (addr: int, ghost k: Backing)
      requires Valid() && 0 <= size < V.U64 && CacheMode(cache)
      modifies this`sizes, this`regionAt, vmem, vmem.segs, regions, regions.nodes, pageMap, pageMap.pool
      modifies pageMap.frames.Values
      ensures Valid() && fresh(regions.nodes - old(regions.nodes))
      ensures addr == 0 ==>
        vmem.blocks == old(vmem.blocks) && Entries() == old(Entries()) && OurPages() == old(OurPages())
      ensures addr != 0 ==> addr !in old(vmem.blocks) && vmem.blocks == old(vmem.blocks)[addr := |k.phys| * PAGE]
      ensures addr != 0 ==>
        NewBacking(old(Entries()), old(OurPages()), Entries(), OurPages(), pageMap.frames.Keys, addr, k)
    {
      ghost var entries, ours := Entries(), OurPages();
      ghost var phys;
      addr, phys := AllocBacked(size, flags, cache);
      k := Backing(phys, flags, cache);
      if addr != 0 {
        NewlyBacked(entries, ours, addr, k);
      }
    }

    method AllocStep(size: int, flags: PageFlags, cache: int, ghost backed: map<int, Backing>)
      returns (addr: int, ghost k: Backing, ghost backed': map<int, Backing>)
      requires Valid() && 0 <= size < V.U64 && CacheMode(cache)
      requires AllBacked(Entries(), OurPages(), pageMap.frames.Keys, vmem.blocks, backed)
      modifies this`sizes, this`regionAt, vmem, vmem.segs, regions, regions.nodes, pageMap, pageMap.pool
      modifies pageMap.frames.Values
      ensures Valid() && AllBacked(Entries(), OurPages(), pageMap.frames.Keys, vmem.blocks, backed')
      ensures backed' == (if addr == 0 then backed else backed[addr := k]) && (addr != 0 ==> addr !in backed)
      ensures backed.Keys == old(vmem.blocks).Keys ==> backed'.Keys == vmem.blocks.Keys
      ensures fresh(regions.nodes - old(regions.nodes))
    {
      ghost var entries, ours, blocks := Entries(), OurPages(), vmem.blocks;
      addr, k := AllocBacking(size, flags, cache);
      backed' := AddBacking(entries, ours, Entries(), OurPages(), blocks, backed, addr, k);
    }

    method FreeStep(ptr: int, ghost backed: map<int, Backing>)
      requires Valid() && ptr in backed && AllBacked(Entries(), OurPages(), pageMap.frames.Keys, vmem.blocks, backed)
      modifies this`sizes, this`regionAt, vmem, vmem.segs, regions, regions.nodes, pageMap.pool, pageMap.frames.Values
      ensures Valid() && AllBacked(Entries(), OurPages(), pageMap.frames.Keys, vmem.blocks, backed - {ptr})
      ensures vmem.blocks == old(vmem.blocks) - {ptr} && regions.nodes <= old(regions.nodes)
    {
      ghost var k := backed[ptr];
      BackedFrom(ptr, k);
      forall b {:trigger backed[b]} | b in backed && b != ptr ensures IndexApart(b, |backed[b].phys|, ptr, |k.phys|) {
        BlocksIndexApart(b, ptr);
      }
      BackedAfterFree(Entries(), OurPages(), pageMap.frames.Keys, vmem.blocks, backed, ptr);
      FreeBacked(ptr, sizes[ptr], k.phys, k.flags, k.cache);
    }

    /** Every run of `alloc_backed` and `free_backed`, in any order: every live block stays backed, and no two of them
        share a page of data. Calls that the source asserts away are not made. */
    method Replay(calls: seq<Call>, ghost before: map<int, Backing>) returns (ghost backed: map<int, Backing>)
      requires Valid() && before.Keys == vmem.blocks.Keys
      requires AllBacked(Entries(), OurPages(), pageMap.frames.Keys, vmem.blocks, before)
      modifies this`sizes, this`regionAt, vmem, vmem.segs, regions, regions.nodes, pageMap, pageMap.pool
      modifies pageMap.frames.Values
      ensures Valid() && backed.Keys == vmem.blocks.Keys
      ensures AllBacked(Entries(), OurPages(), pageMap.frames.Keys, vmem.blocks, backed)
      decreases |calls|
    {
      if calls == [] {
        return before;
      }
      backed := Perform(calls[0], before);
      backed := Replay(calls[1..], backed);
    }

    method Perform(call: Call, ghost before: map<int, Backing>) returns (ghost backed: map<int, Backing>)
      requires Valid() && before.Keys == vmem.blocks.Keys
      requires AllBacked(Entries(), OurPages(), pageMap.frames.Keys, vmem.blocks, before)
      modifies this`sizes, this`regionAt, vmem, vmem.segs, regions, regions.nodes, pageMap, pageMap.pool
      modifies pageMap.frames.Values
      ensures Valid() && backed.Keys == vmem.blocks.Keys && fresh(regions.nodes - old(regions.nodes))
      ensures AllBacked(Entries(), OurPages(), pageMap.frames.Keys, vmem.blocks, backed)
    {
      backed := before;
      match call {
        case AllocCall(size, flags, cache) =>
          if 0 <= size < V.U64 && CacheMode(cache) {
            var addr;
            ghost var k;
            addr, k, backed := AllocStep(size, flags, cache, before);
          }
        case FreeCall(ptr) =>
          if ptr in sizes {
            FreeStep(ptr, before);
            backed := before - {ptr};
          }
      }
    }
  }

  lemma SameKeys(backed: map<int, Backing>, blocks: map<int, int>, addr: int, k: Backing, n: int)
    ensures backed.Keys == blocks.Keys ==> backed[addr := k].Keys == blocks[addr := n].Keys
  {
  }

  lemma WholePages(b: int, m: int, c: int, n: int)
    requires b % PAGE == 0 && c % PAGE == 0 && m % PAGE == 0 && n % PAGE == 0
    requires PageIndex(c) - PageIndex(b) == (c - b) / PAGE && (b + m <= c || c + n <= b)
    ensures IndexApart(b, m / PAGE, c, n / PAGE)
  {
  }
}
