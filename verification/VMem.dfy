/** The boundary-tag address allocator `VMem` (src/mem/vmem.cpp). */
module VMem {
  import opened Arith
  import opened Extents
  import opened Seqs
  import opened Words

  const U64: int := 0x1_0000_0000_0000_0000
  const FREELISTS: int := 64
  const HASHTAB: int := 16
  const LISTS: int := 80
  const SEGMENTS_PER_PAGE: int := 73

  datatype Kind = Free | Used | Span

  function Xor(a: nat, b: nat): nat
  {
    if a == 0 then b else if b == 0 then a else (a + b) % 2 + 2 * Xor(a / 2, b / 2)
  }

  /** The rounds of `murmur64` from `round` on: three shift-and-xor steps with a multiplication between them. */
  function Murmur64(key: nat, round: nat): nat
    requires round <= 2
    decreases 2 - round
  {
    var k := Xor(key, key / 0x2_0000_0000);
    if round == 2 then k
    else Murmur64(k * (if round == 0 then 0xFF51AFD7ED558CCD else 0xC4CEB9FE1A85EC53) % U64, round + 1)
  }

  /** The hash bucket of an address. */
  function Bucket(address: nat): (b: nat)
    ensures b < HASHTAB
  {
    Murmur64(address, 0) % HASHTAB
  }

  /** `ALIGNUP` on 64-bit words; `align` is a power of two. */
  function AlignUp(value: int, align: int): int
    requires 0 < align
  {
    (value + align - 1) % U64 / align * align
  }

  lemma AlignUpMultiple(value: int, align: int)
    requires 0 < align
    ensures AlignUp(value, align) % align == 0
  {
    MultipleMod((value + align - 1) % U64 / align, align);
  }

  /** Rounding up gives the least multiple of the alignment that is not below the value, as long as nothing wraps. */
  lemma AlignUpLeast(value: int, align: int)
    requires 0 <= value && 0 < align && value + align - 1 < U64
    ensures AlignUp(value, align) % align == 0 && value <= AlignUp(value, align) < value + align
  {
    var x := value + align - 1;
    assert x % U64 == x;
    AlignUpMultiple(value, align);
    assert x == align * (x / align) + x % align;
  }

  /** A multiple of the alignment stays as it is. */
  lemma AlignUpExact(k: int, align: int)
    requires 0 <= k && 0 < align && k * align + align - 1 < U64
    ensures AlignUp(k * align, align) == k * align
  {
    var x := k * align + align - 1;
    assert 0 <= k * align;
    assert x % U64 == x;
    DivModUnique(x, align, k, align - 1);
  }

  /** The upper end of the range a request may use: all addresses, the place right after `min`, or as given. */
  function Limit(size: int, min: int, max: int): int
  {
    if max == 0 then U64 - 1 else if max == min then (min + size) % U64 else max
  }

  lemma LimitOfFixed(size: int, min: int)
    requires 0 < size < U64 && 0 < min < U64
    ensures Limit(size, min, min) == if min + size < U64 then min + size else min + size - U64
  {
  }

  lemma AlignUpWord(value: int, align: int)
    requires 0 < align
    ensures 0 <= AlignUp(value, align) < U64
  {
    var x := (value + align - 1) % U64;
    assert x == x / align * align + x % align;
  }

  /** The part of the segment inside [min, max) has room for `wanted` bytes. */
  predicate Fits(base: int, size: int, wanted: int, min: int, max: int)
  {
    var start, end := Max(base, min), Min(base + size, max);
    start <= end && end - start >= wanted
  }

  class Segment {
    var base: int
    var size: int
    var kind: Kind
    var prev: Segment?
    var next: Segment?
    ghost const page: nat
    ghost const place: nat
    ghost var on: bool
    ghost var pos: int
    ghost var home: int
    ghost var rank: int
    ghost var slot: int

    /** The descriptor at index `place` of page `page`, before the page has been handed out. */
    constructor (ghost page: nat, ghost place: nat)
      ensures this.page == page && this.place == place && !on
    {
      base, size, kind, prev, next := 0, 0, Free, null, null;
      on, pos, home, rank, slot := false, -1, 0, 0, 0;
      this.page, this.place := page, place;
    }
  }

  /** The descriptors are those of the pages, each at its own place. */
  ghost predicate Pages(supply: seq<seq<Segment>>, segs: set<Segment>)
  {
    && (forall p {:trigger supply[p]} :: 0 <= p < |supply| ==> |supply[p]| == SEGMENTS_PER_PAGE)
    && (forall p, j {:trigger supply[p][j]} :: 0 <= p < |supply| && 0 <= j < |supply[p]| ==>
          supply[p][j] in segs && supply[p][j].page == p && supply[p][j].place == j)
    && (forall s {:trigger s.place} :: s in segs ==>
          s.page < |supply| && s.place < |supply[s.page]| && supply[s.page][s.place] == s)
  }

  /** `addr` is the start of the arena or the end of a live block. */
  ghost predicate Abuts(addr: int, base: int, blocks: map<int, int>)
  {
    addr == base || exists b :: b in blocks && b + blocks[b] == addr
  }

  lemma PutAndTake(m: map<int, int>, k: int, v: int)
    requires k !in m
    ensures m[k := v] - {k} == m
  {
  }

  /** The segments from place `i` on as extents. */
  ghost function ExtentsOf(chain: seq<Segment>, i: int): seq<Extent>
    requires 0 <= i
    reads chain
    decreases |chain| - i
  {
    if i >= |chain| then []
    else [Extent(chain[i].base, chain[i].size, chain[i].kind == Used)] + ExtentsOf(chain, i + 1)
  }

  // The arguments of the lemmas about two states, each of which takes one.

  /** `seg` goes into a list, or leaves it, while the segments in `loose` are in none. */
  datatype Move = Move(seg: Segment, loose: set<Segment>)

  /** `a` is merged with the segment `b` after it. */
  datatype Merger = Merger(a: Segment, b: Segment)

  datatype MergerAt = MergerAt(a: Segment, b: Segment, s: Segment)

  datatype MergerIn = MergerIn(a: Segment, b: Segment, loose: set<Segment>, held: set<Segment>)

  /** `k` bytes are cut off the front of `seg` into `piece`. */
  datatype Cutting = Cutting(seg: Segment, piece: Segment, k: int)

  datatype CuttingAt = CuttingAt(seg: Segment, piece: Segment, k: int, s: Segment)

  datatype CuttingIn = CuttingIn(seg: Segment, piece: Segment, k: int, loose: set<Segment>, held: set<Segment>)

  class VMem {
    const base: int
    const size: int
    const quantum: int
    var span: Segment
    var lists: seq<seq<Segment>>
    var freeSegs: seq<Segment>
    /** The pages that `alloc_page` will return, each an array of descriptors, and how many it has returned. */
    const supply: seq<seq<Segment>>
    var taken: nat
    ghost const segs: set<Segment>
    ghost var chain: seq<Segment>
    ghost var live: map<int, Segment>
    ghost var blocks: map<int, int>

    // ---------------------------------------------------------------- invariants

    /** `chain` is the span and then the segments of the arena, each of them once. */
    ghost predicate InChain()
      reads this`span, this`chain, segs`pos, segs`on
    {
      && |chain| >= 2 && chain[0] == span && span in segs && !span.on && span.pos == 0
      && (forall i {:trigger chain[i]} :: 0 <= i < |chain| ==> chain[i] in segs && chain[i].pos == i)
      && (forall s {:trigger s.on} :: s in segs && (s.on || s == span) ==> 0 <= s.pos < |chain| && chain[s.pos] == s)
      && (forall i {:trigger chain[i]} :: 1 <= i < |chain| ==> chain[i].on)
    }

    /** The `prev` and `next` hooks link the span and then the segments of the arena, in the order of `chain`. */
    ghost predicate Chained()
      reads this`span, this`chain, segs`prev, segs`next, segs`pos, segs`on
    {
      && InChain()
      && (forall s {:trigger s.prev} :: s in segs && s.on && 0 < s.pos < |chain| ==> s.prev == chain[s.pos - 1])
      && (forall s {:trigger s.next} :: s in segs && (s.on || s == span) && 0 <= s.pos < |chain| ==>
            s.next == if s.pos + 1 == |chain| then null else chain[s.pos + 1])
    }

    ghost predicate Kinds()
      reads this`span, span`kind, segs`kind, segs`on
    {
      && span.kind == Span
      && (forall s {:trigger s.kind} :: s in segs && s.on ==> s.kind != Span)
    }

    /** The segments tile the arena. */
    ghost predicate Tiled()
      reads this`span, span`next, segs`base, segs`size, segs`next, segs`on
    {
      && span.next != null && span.next in segs && span.next.base == base
      && (forall s {:trigger s.size} :: s in segs && s.on ==> s.size > 0)
      && (forall s {:trigger s.size} :: s in segs && s.on && s.size > 0 ==>
            && (s.next == null ==> s.base + s.size == base + size)
            && (s.next != null ==> s.next in segs && s.next.base == s.base + s.size))
    }

    /** No two neighbours are both free; loose segments are not looked at. */
    ghost predicate Apart(loose: set<Segment>)
      reads segs`next, segs`on, segs`kind
    {
      forall s {:trigger s.next} ::
        s in segs && s.on && s.next != null && s.next in segs && s !in loose && s.next !in loose ==>
        s.kind != Free || s.next.kind != Free
    }

    /** The lists hold exactly the segments that are not loose, each of them once. */
    ghost predicate Listed(loose: set<Segment>)
      reads this`lists, segs`on, segs`home, segs`rank
    {
      && |lists| == LISTS
      && (forall i, j {:trigger lists[i][j]} :: 0 <= i < LISTS && 0 <= j < |lists[i]| ==>
            && lists[i][j] in segs && lists[i][j].on && lists[i][j] !in loose
            && lists[i][j].home == i && lists[i][j].rank == j)
      && (forall s {:trigger s.rank} :: s in segs && s.on && s !in loose ==> s.rank >= 0)
      && (forall s {:trigger s.rank} :: s in segs && s.on && s !in loose && s.rank >= 0 ==>
            0 <= s.home < LISTS && s.rank < |lists[s.home]| && lists[s.home][s.rank] == s)
    }

    /** A listed segment stands in the free list of its size or in a hash bucket. */
    ghost predicate Homed(loose: set<Segment>)
      reads segs`on, segs`home, segs`kind, segs`size, segs`base
    {
      && (forall s {:trigger s.home} :: s in segs && s.on && s !in loose ==> s.home >= 0)
      && (forall s {:trigger s.home} :: s in segs && s.on && s !in loose && s.home >= 0 ==>
            && s.size > 0 && s.base > 0
            && (s.kind == Free <==> s.home < FREELISTS)
            && (s.kind == Free ==> s.home == Log2(s.size)))
    }

    /** A used segment stands in the hash bucket of its base. */
    ghost predicate Hashed(loose: set<Segment>)
      reads segs`on, segs`home, segs`kind, segs`base
    {
      forall s {:trigger Bucket(s.base)} :: s in segs && s.on && s !in loose && s.kind == Used && s.base > 0 ==>
        s.home == FREELISTS + Bucket(s.base)
    }

    /** `live` names the used segments that are not loose by their bases, and `blocks` gives their sizes. */
    ghost predicate Owned(loose: set<Segment>)
      reads this`live, this`blocks, segs`on, segs`kind, segs`base, segs`size
    {
      && blocks.Keys == live.Keys
      && (forall s {:trigger s.kind} :: s in segs && s.on && s !in loose && s.kind == Used ==>
            s.base in live && live[s.base] == s)
      && (forall b {:trigger live[b]} :: b in live ==>
            && live[b] in segs && live[b].on && live[b] !in loose && live[b].kind == Used && live[b].base == b
            && blocks[b] == live[b].size)
    }

    /** Descriptors that describe nothing are on the free stack, each of them once, except those in hand and
        those of pages not handed out yet. The first descriptor of a page links the pages. */
    ghost predicate Spare(held: set<Segment>)
      reads this`freeSegs, this`span, this`taken, segs`on, segs`slot
    {
      && (forall j {:trigger freeSegs[j]} :: 0 <= j < |freeSegs| ==>
            && freeSegs[j] in segs && freeSegs[j].page < taken && freeSegs[j].place >= 1
            && !freeSegs[j].on && freeSegs[j] != span && freeSegs[j] !in held && freeSegs[j].slot == j)
      && (forall s {:trigger s.slot} ::
            s in segs && s.page < taken && s.place >= 1 && !s.on && s != span && s !in held ==>
            s.slot >= 0)
      && (forall s {:trigger s.slot} ::
            s in segs && s.page < taken && s.place >= 1 && !s.on && s != span && s !in held && s.slot >= 0 ==>
            s.slot < |freeSegs| && freeSegs[s.slot] == s)
      && (forall s {:trigger s in held} :: s in held ==>
            s in segs && s.page < taken && s.place >= 1 && !s.on && s != span)
      && (forall s {:trigger s.on} {:trigger s.place} :: s in segs && (s.on || s == span) ==>
            s.page < taken && s.place >= 1)
      && taken <= |supply|
    }

    ghost predicate Supplied()
    {
      Pages(supply, segs)
    }

    ghost predicate Inv(loose: set<Segment>, held: set<Segment>)
      reads this, segs, span
    {
      && Chained() && Kinds() && Tiled() && Apart(loose) && Listed(loose) && Homed(loose) && Hashed(loose)
      && Owned(loose) && Spare(held)
      && (forall s {:trigger s in loose} :: s in loose ==> s in segs && s.on)
      && base > 0 && size > 0 && base + size < U64 && quantum > 0 && Supplied()
    }

    // ---------------------------------------------------------------- lists

    ghost method ShiftRanks(i: int, first: int, delta: int)
      modifies segs`rank
      ensures forall s {:trigger s.rank} :: s in segs ==>
        s.rank == old(s.rank) + (if s.on && s.home == i && old(s.rank) >= first then delta else 0)
    {
      forall s | s in segs { s.rank := s.rank + (if s.on && s.home == i && s.rank >= first then delta else 0); }
    }

    method PushRaw(i: int, seg: Segment)
      requires 0 <= i < |lists| && seg in segs
      modifies this`lists, segs`rank, seg`home
      ensures seg.home == i && seg.rank == 0 && lists == old(lists)[i := [seg] + old(lists)[i]]
      ensures forall s {:trigger s.rank} :: s in segs && s != seg ==>
        s.rank == old(s.rank) + (if s.on && s.home == i && old(s.rank) >= 0 then 1 else 0)
    {
      ShiftRanks(i, 0, 1);
      seg.rank, seg.home := 0, i;
      lists := lists[i := [seg] + lists[i]];
    }

    method PushFront(i: int, seg: Segment, ghost loose: set<Segment>)
      requires Listed(loose) && 0 <= i < LISTS && seg in segs && seg in loose && seg.on
      modifies this`lists, segs`rank, seg`home
      ensures Listed(loose - {seg})
      ensures seg.home == i && lists == old(lists)[i := [seg] + old(lists)[i]]
      ensures forall s {:trigger s.rank} :: s in segs && !s.on ==> s.rank == old(s.rank)
    {
      PushRaw(i, seg);
      forall s | s in segs && s.on && (s !in loose || s == seg)
        ensures 0 <= s.home < LISTS && 0 <= s.rank < |lists[s.home]| && lists[s.home][s.rank] == s
      {
        if s != seg {
          assert old(0 <= s.rank && lists[s.home][s.rank] == s);
        }
      }
    }

    method RemoveRaw(i: int, seg: Segment)
      requires 0 <= i < |lists| && seg in segs
      modifies this`lists, segs`rank
      ensures lists == old(lists)[i := Without(old(lists)[i], seg)]
      ensures forall s {:trigger s.rank} :: s in segs ==>
        s.rank == old(s.rank) - (if s.on && s.home == i && old(s.rank) > old(seg.rank) then 1 else 0)
    {
      ShiftRanks(i, seg.rank + 1, -1);
      lists := lists[i := Without(lists[i], seg)];
    }

    method RemoveAt(i: int, seg: Segment, ghost loose: set<Segment>)
      requires Listed(loose) && seg in segs && seg !in loose && seg.on && seg.home == i
      modifies this`lists, segs`rank
      ensures Listed(loose + {seg})
      ensures 0 <= i < LISTS && lists == old(lists)[i := Without(old(lists)[i], seg)]
      ensures forall s {:trigger s.rank} :: s in segs && !s.on ==> s.rank == old(s.rank)
    {
      assert seg.rank >= 0 && lists[i][seg.rank] == seg;
      WithoutAt(lists[i], seg.rank);
      RemoveRaw(i, seg);
      forall s | s in segs && s.on && s !in loose && s != seg
        ensures 0 <= s.home < LISTS && 0 <= s.rank < |lists[s.home]| && lists[s.home][s.rank] == s
      {
        assert old(0 <= s.rank && lists[s.home][s.rank] == s);
      }
    }

    /** Nothing but the kind, the list and the rank of `seg` has changed, and ranks within lists. */
    twostate predicate Relisted(seg: Segment)
      reads this, segs, seg
    {
      && span == old(span) && chain == old(chain)
      && (forall s {:trigger s.next} :: s in segs ==> s.next == old(s.next))
      && (forall s {:trigger s.on} :: s in segs ==> s.on == old(s.on))
      && (forall s {:trigger s.size} :: s in segs ==> s.size == old(s.size))
      && (forall s {:trigger s.base} :: s in segs ==> s.base == old(s.base))
      && (forall s {:trigger s.kind} :: s in segs && s != seg ==> s.kind == old(s.kind))
      && (forall s {:trigger s.home} :: s in segs && s != seg ==> s.home == old(s.home))
    }

    method PushAs(seg: Segment, kind: Kind, i: int, ghost newLive: map<int, Segment>, ghost newBlocks: map<int, int>,
                  ghost loose: set<Segment>)
      requires Listed(loose) && Kinds() && 0 <= i < LISTS && seg in segs && seg in loose && seg.on
      requires kind != Span
      modifies this`lists, this`live, this`blocks, segs`rank, seg`home, seg`kind
      ensures Listed(loose - {seg}) && Kinds() && seg.kind == kind && seg.home == i
      ensures live == newLive && blocks == newBlocks && Relisted(seg)
      ensures lists == old(lists)[i := [seg] + old(lists)[i]]
    {
      seg.kind := kind;
      PushFront(i, seg, loose);
      live, blocks := newLive, newBlocks;
    }

    twostate lemma RelistedFree(a: Move)
      requires Relisted(a.seg) && a.seg in segs && a.seg in a.loose && a.seg.on && Chained() && a.seg.prev in segs
      requires old(Apart(a.loose)) && old(Homed(a.loose)) && old(Hashed(a.loose)) && old(Owned(a.loose))
      requires live == old(live) && blocks == old(blocks)
      requires a.seg.kind == Free && a.seg.size > 0 && a.seg.base > 0 && a.seg.home == Log2(a.seg.size) < FREELISTS
      requires a.seg.prev != null ==> a.seg.prev.kind != Free || a.seg.prev in a.loose
      requires a.seg.next != null ==> a.seg.next in segs && (a.seg.next.kind != Free || a.seg.next in a.loose)
      ensures Apart(a.loose - {a.seg}) && Homed(a.loose - {a.seg}) && Hashed(a.loose - {a.seg})
      ensures Owned(a.loose - {a.seg})
    {
      var seg := a.seg;
      forall s | s in segs && s.on && s.next == seg
        ensures s == seg.prev
      {
      }
    }

    method FreelistInsertNoMerge(seg: Segment, ghost loose: set<Segment>, ghost held: set<Segment>)
      requires Inv(loose, held) && seg in loose && seg.size >= 0
      requires seg.prev != null && seg.prev in segs && (seg.prev.kind != Free || seg.prev in loose)
      requires seg.next != null ==> seg.next in segs && (seg.next.kind != Free || seg.next in loose)
      modifies this`lists, this`live, this`blocks, segs`rank, seg`home, seg`kind
      ensures Inv(loose - {seg}, held) && seg.kind == Free && live == old(live) && blocks == old(blocks)
      ensures Log2(seg.size) < FREELISTS
      ensures lists == old(lists)[Log2(seg.size) := [seg] + old(lists)[Log2(seg.size)]]
    {
      SegBounds(seg);
      Log2Word(seg.size);
      PushAs(seg, Free, Log2(seg.size), live, blocks, loose);
      RelistedFree(Move(seg, loose));
    }

    twostate lemma TakenOut(a: Move)
      requires Relisted(a.seg) && a.seg in segs && a.seg !in a.loose && a.seg.on && a.seg.kind == old(a.seg.kind)
      requires old(Apart(a.loose)) && old(Homed(a.loose)) && old(Hashed(a.loose)) && old(Owned(a.loose))
      requires live == if a.seg.kind == Used then old(live) - {a.seg.base} else old(live)
      requires blocks == if a.seg.kind == Used then old(blocks) - {a.seg.base} else old(blocks)
      requires a.seg.home == old(a.seg.home)
      ensures Apart(a.loose + {a.seg}) && Homed(a.loose + {a.seg}) && Hashed(a.loose + {a.seg})
      ensures Owned(a.loose + {a.seg})
    {
      assert a.seg.kind == Used ==> a.seg.base in old(live) && old(live)[a.seg.base] == a.seg;
    }

    method TakeRaw(i: int, seg: Segment, ghost loose: set<Segment>)
      requires Listed(loose) && seg in segs && seg.on && seg !in loose && seg.home == i
      modifies this`lists, this`live, this`blocks, segs`rank
      ensures Listed(loose + {seg}) && Relisted(seg)
      ensures 0 <= i < LISTS && lists == old(lists)[i := Without(old(lists)[i], seg)]
      ensures live == if seg.kind == Used then old(live) - {seg.base} else old(live)
      ensures blocks == if seg.kind == Used then old(blocks) - {seg.base} else old(blocks)
    {
      RemoveAt(i, seg, loose);
      if seg.kind == Used {
        live, blocks := live - {seg.base}, blocks - {seg.base};
      }
    }

    /** Takes `seg` out of list `i`, which holds it; it becomes loose. */
    method TakeOut(i: int, seg: Segment, ghost loose: set<Segment>, ghost held: set<Segment>)
      requires Inv(loose, held) && seg in segs && seg.on && seg !in loose && seg.home == i
      modifies this`lists, this`live, this`blocks, segs`rank
      ensures Inv(loose + {seg}, held)
      ensures 0 <= i < LISTS && lists == old(lists)[i := Without(old(lists)[i], seg)]
      ensures live == if seg.kind == Used then old(live) - {seg.base} else old(live)
      ensures blocks == if seg.kind == Used then old(blocks) - {seg.base} else old(blocks)
    {
      TakeRaw(i, seg, loose);
      TakenOut(Move(seg, loose));
    }

    // ---------------------------------------------------------------- address order

    /** Later segments lie at higher addresses. */
    lemma {:induction false} ChainOrder(i: int, j: int)
      requires Chained() && Tiled() && 1 <= i < j < |chain|
      ensures chain[i].size > 0 && chain[i].base + chain[i].size <= chain[j].base
      decreases j - i
    {
      var s := chain[i];
      assert s.on && s.size > 0 && s.next == chain[i + 1];
      if i + 1 < j {
        ChainOrder(i + 1, j);
      }
    }

    lemma SegBounds(seg: Segment)
      requires Chained() && Tiled() && seg in segs && seg.on
      ensures base <= seg.base && seg.size > 0 && seg.base + seg.size <= base + size
    {
      var last := chain[|chain| - 1];
      assert span.next == chain[1] && chain[seg.pos] == seg && seg.size > 0;
      assert last.on && last.next == null && last.size > 0;
      if 1 < seg.pos {
        ChainOrder(1, seg.pos);
      }
      if seg.pos < |chain| - 1 {
        ChainOrder(seg.pos, |chain| - 1);
      }
    }

    lemma BasesDiffer(s: Segment, t: Segment)
      requires Chained() && Tiled() && s in segs && s.on && t in segs && t.on && s != t
      ensures s.base != t.base
    {
      assert chain[s.pos] == s && chain[t.pos] == t;
      if s.pos < t.pos {
        ChainOrder(s.pos, t.pos);
      } else {
        ChainOrder(t.pos, s.pos);
      }
    }

    twostate lemma RelistedUsed(a: Move)
      requires Relisted(a.seg) && a.seg in segs && a.seg in a.loose && a.seg.on && a.seg.base !in old(live)
      requires old(Apart(a.loose)) && old(Homed(a.loose)) && old(Hashed(a.loose)) && old(Owned(a.loose))
      requires live == old(live)[a.seg.base := a.seg]
      requires blocks == old(blocks)[a.seg.base := a.seg.size]
      requires a.seg.kind == Used && a.seg.size > 0 && a.seg.base > 0 && a.seg.home == FREELISTS + Bucket(a.seg.base)
      ensures Apart(a.loose - {a.seg}) && Homed(a.loose - {a.seg}) && Hashed(a.loose - {a.seg})
      ensures Owned(a.loose - {a.seg})
    {
    }

    lemma FreshBase(seg: Segment, loose: set<Segment>)
      requires Chained() && Tiled() && Owned(loose) && seg in segs && seg.on && seg in loose
      ensures seg.base !in live
    {
      if seg.base in live {
        var b := seg.base;
        var other := live[b];
        assert other in segs && other !in loose;
        BasesDiffer(other, seg);
      }
    }

    method HashtabInsert(seg: Segment, ghost loose: set<Segment>, ghost held: set<Segment>)
      requires Inv(loose, held) && seg in loose
      modifies this`lists, this`live, this`blocks, segs`rank, seg`home, seg`kind
      ensures Inv(loose - {seg}, held) && seg.kind == Used
      ensures seg.base !in old(blocks) && live == old(live)[seg.base := seg]
      ensures blocks == old(blocks)[seg.base := seg.size]
    {
      SegBounds(seg);
      FreshBase(seg, loose);
      PushAs(seg, Used, FREELISTS + Bucket(seg.base), live[seg.base := seg], blocks[seg.base := seg.size], loose);
      RelistedUsed(Move(seg, loose));
    }

    // ---------------------------------------------------------------- merging

    ghost method Unchain(b: Segment)
      requires 0 <= b.pos < |chain|
      modifies this`chain, segs`pos, b`pos, b`on
      ensures chain == old(chain)[..old(b.pos)] + old(chain)[old(b.pos) + 1..]
      ensures !b.on && b.pos == -1
      ensures forall s {:trigger s.pos} :: s in segs && s != b ==>
        s.pos == old(s.pos) - (if old(s.pos) > old(b.pos) then 1 else 0)
    {
      ghost var p := b.pos;
      chain := chain[..p] + chain[p + 1..];
      forall s | s in segs { s.pos := s.pos - (if s.pos > p then 1 else 0); }
      b.pos, b.on := -1, false;
    }

    /** What merging `a` with the segment `b` after it writes, and that it writes nothing else. */
    twostate predicate Absorbed(a: Segment, b: Segment)
      reads this, segs
    {
      && span == old(span) && a in segs && b in segs && a != b
      && 0 <= old(b.pos) < |old(chain)| && chain == old(chain)[..old(b.pos)] + old(chain)[old(b.pos) + 1..]
      && !b.on && b.pos == -1 && a.size == old(a.size) + old(b.size) && a.next == old(b.next)
      && (forall s {:trigger s.pos} :: s in segs && s != b ==>
            s.pos == old(s.pos) - (if old(s.pos) > old(b.pos) then 1 else 0))
      && (forall s {:trigger s.on} :: s in segs && s != b ==> s.on == old(s.on))
      && (forall s {:trigger s.size} :: s in segs && s != a ==> s.size == old(s.size))
      && (forall s {:trigger s.next} :: s in segs && s != a ==> s.next == old(s.next))
      && (forall s {:trigger s.prev} :: s in segs ==> s.prev == if s == old(b.next) then a else old(s.prev))
      && (forall s {:trigger s.base} :: s in segs ==> s.base == old(s.base))
      && (forall s {:trigger s.rank} :: s in segs ==> s.rank == old(s.rank))
      && (forall s {:trigger s.kind} :: s in segs ==> s.kind == old(s.kind))
      && (forall s {:trigger s.home} :: s in segs ==> s.home == old(s.home))
      && lists == old(lists) && live == old(live) && blocks == old(blocks)
      && freeSegs == old(freeSegs) + [b] && taken == old(taken) && b.slot == |old(freeSegs)|
      && (forall s {:trigger s.slot} :: s in segs && s != b ==> s.slot == old(s.slot))
    }

    method AbsorbRaw(a: Segment, b: Segment)
      requires a in segs && b in segs && a != b && b.next != a && b.next != b && (b.next != null ==> b.next in segs)
      requires 0 <= b.pos < |chain|
      modifies this`chain, this`freeSegs, segs`pos, segs`prev, a`next, a`size, b`on, b`slot
      ensures Absorbed(a, b)
    {
      if b.next != null {
        b.next.prev := a;
      }
      a.next := b.next;
      a.size := a.size + b.size;
      freeSegs := freeSegs + [b];
      b.slot := |freeSegs| - 1;
      Unchain(b);
    }

    twostate lemma AbsorbedInChain(x: Merger)
      requires Absorbed(x.a, x.b) && old(InChain()) && old(x.a.on && x.b.on) && x.b != span
      ensures InChain()
    {
      assert old(chain[x.a.pos]) == x.a && old(chain[x.b.pos]) == x.b;
    }

    /** The hooks of `x.s` are right. */
    twostate lemma AbsorbedHooks(x: MergerAt)
      requires Absorbed(x.a, x.b) && old(Chained()) && InChain() && old(x.a.on && x.b.on && x.a.next == x.b)
      requires x.s in segs
      ensures var s := x.s;
        && (s.on && 0 < s.pos < |chain| ==> s.prev == chain[s.pos - 1])
        && ((s.on || s == span) && 0 <= s.pos < |chain| ==>
              s.next == if s.pos + 1 == |chain| then null else chain[s.pos + 1])
    {
      var MergerAt(a, b, s) := x;
      assert old(chain[a.pos]) == a && old(chain[b.pos]) == b && old(b.pos == a.pos + 1);
    }

    twostate lemma AbsorbedChained(x: Merger)
      requires Absorbed(x.a, x.b) && old(Chained()) && old(x.a.on && x.b.on && x.a.next == x.b)
      ensures Chained()
    {
      var Merger(a, b) := x;
      AbsorbedInChain(x);
      forall s {:trigger s.prev} {:trigger s.next} | s in segs
        ensures s.on && 0 < s.pos < |chain| ==> s.prev == chain[s.pos - 1]
        ensures (s.on || s == span) && 0 <= s.pos < |chain| ==>
          s.next == if s.pos + 1 == |chain| then null else chain[s.pos + 1]
      {
        AbsorbedHooks(MergerAt(a, b, s));
      }
    }

    twostate lemma AbsorbedTiled(x: Merger)
      requires Absorbed(x.a, x.b) && old(Chained()) && old(Tiled()) && old(x.a.on && x.b.on && x.a.next == x.b)
      ensures Tiled()
    {
      var Merger(a, b) := x;
      assert old(a.size > 0 && b.size > 0);
      assert old(chain[a.pos]) == a && old(chain[b.pos]) == b && old(b.pos == a.pos + 1);
      assert old(span.next) == old(chain[1]) && span.next != b;
      forall s | s in segs && s.on && s.next != null
        ensures s.next != b
      {
        assert s != a ==> old(s.next) == s.next;
        assert old(s.pos + 1 < |chain| && s.next == chain[s.pos + 1]);
      }
    }

    twostate lemma AbsorbedApart(x: MergerIn)
      requires Absorbed(x.a, x.b) && Chained() && x.a in x.loose && x.b in x.loose
      requires old(x.a.on && x.b.on && x.a.next == x.b) && old(Apart(x.loose))
      ensures Apart(x.loose - {x.b})
    {
      forall s | s in segs && s.on && s.next != null
        ensures s.next != x.b
      {
        assert s.next == chain[s.pos + 1];
      }
    }

    twostate lemma AbsorbedBooks(x: MergerIn)
      requires Absorbed(x.a, x.b) && Chained() && x.a in x.loose && x.b in x.loose
      requires old(x.a.on && x.b.on && x.a.next == x.b)
      requires old(Listed(x.loose) && Homed(x.loose) && Hashed(x.loose) && Owned(x.loose))
      requires old(Spare(x.held) && Kinds())
      ensures Listed(x.loose - {x.b}) && Homed(x.loose - {x.b}) && Hashed(x.loose - {x.b}) && Owned(x.loose - {x.b})
      ensures Spare(x.held) && Kinds()
    {
    }

    /** Merges `a` with the segment `b` that follows it; the descriptor `b` becomes spare. */
    method Absorb(a: Segment, b: Segment, ghost loose: set<Segment>, ghost held: set<Segment>)
      requires Inv(loose, held) && a in loose && b in loose && a.next == b
      modifies this`chain, this`freeSegs, segs`pos, segs`prev, a`next, a`size, b`on, b`slot
      ensures Inv(loose - {b}, held) && a.size == old(a.size) + old(b.size) && a.next == old(b.next)
      ensures |chain| < |old(chain)|
    {
      assert chain[a.pos] == a && chain[b.pos] == b && b.pos == a.pos + 1;
      AbsorbRaw(a, b);
      AbsorbedChained(Merger(a, b));
      AbsorbedTiled(Merger(a, b));
      AbsorbedApart(MergerIn(a, b, loose, held));
      AbsorbedBooks(MergerIn(a, b, loose, held));
    }

    lemma Neighbours(seg: Segment)
      requires Chained() && Kinds() && Tiled() && seg in segs && seg.on
      ensures seg.prev != null && seg.prev in segs && seg.prev != seg && seg.prev.next == seg
      ensures seg.prev.kind == Free ==> seg.prev.on && seg.prev.base + seg.prev.size == seg.base
      ensures seg.next != null ==>
        && seg.next in segs && seg.next.on && seg.next != seg
        && seg.base + seg.size == seg.next.base && seg.next.prev == seg
    {
      assert chain[seg.pos] == seg && seg.prev == chain[seg.pos - 1];
      var prev := chain[seg.pos - 1];
      assert prev.pos == seg.pos - 1 && prev.next == seg;
      assert prev.kind == Free ==> prev.on && prev.size > 0;
      assert seg.size > 0;
    }

    /** Takes the free segment `other` out of its list. */
    method FreelistRemove(other: Segment, ghost loose: set<Segment>, ghost held: set<Segment>)
      requires Inv(loose, held) && other in segs && other.on && other !in loose && other.kind == Free
      modifies this`lists, this`live, this`blocks, segs`rank
      ensures Inv(loose + {other}, held) && live == old(live) && blocks == old(blocks)
    {
      assert other.home >= 0;
      TakeOut(Log2(other.size), other, loose, held);
    }

    /** Merges the free segment `prev` with the loose segment `seg` after it. */
    method MergePrev(seg: Segment, prev: Segment, ghost rest: set<Segment>, ghost held: set<Segment>)
      requires Inv(rest + {seg}, held) && seg !in rest && prev in segs && prev.on && prev !in rest + {seg}
      requires prev.kind == Free && prev.next == seg
      modifies this`lists, this`live, this`blocks, this`chain, this`freeSegs, segs`rank, segs`slot, segs`pos, segs`prev
      modifies prev`next, prev`size, seg`on
      ensures Inv(rest + {prev}, held) && live == old(live) && blocks == old(blocks) && |chain| < |old(chain)|
    {
      FreelistRemove(prev, rest + {seg}, held);
      Absorb(prev, seg, rest + {seg} + {prev}, held);
      assert rest + {seg} + {prev} - {seg} == rest + {prev};
    }

    /** Merges the loose segment `seg` with the free segment `next` after it. */
    method MergeNext(seg: Segment, next: Segment, ghost rest: set<Segment>, ghost held: set<Segment>)
      requires Inv(rest + {seg}, held) && seg !in rest && next in segs && next.on && next !in rest + {seg}
      requires next.kind == Free && seg.next == next
      modifies this`lists, this`live, this`blocks, this`chain, this`freeSegs, segs`rank, segs`slot, segs`pos, segs`prev
      modifies seg`next, seg`size, next`on
      ensures Inv(rest + {seg}, held) && live == old(live) && blocks == old(blocks) && |chain| < |old(chain)|
    {
      FreelistRemove(next, rest + {seg}, held);
      Absorb(seg, next, rest + {seg} + {next}, held);
      assert rest + {seg} + {next} - {next} == rest + {seg};
    }

    /** One round of the merge loop: `more` says that `seg` was merged with a neighbour into `merged`. */
    method MergeStep(seg: Segment, ghost rest: set<Segment>, ghost held: set<Segment>)
      returns (more: bool, merged: Segment)
      requires Inv(rest + {seg}, held) && seg !in rest && forall s :: s in rest ==> s.kind != Free
      modifies this`lists, this`live, this`blocks, this`chain, this`freeSegs
      modifies segs`rank, segs`slot, segs`pos, segs`prev, segs`next, segs`size, segs`on
      ensures Inv(rest + {merged}, held) && merged !in rest && live == old(live) && blocks == old(blocks)
      ensures if more then |chain| < |old(chain)| else |chain| == |old(chain)|
      ensures !more ==> merged == seg && seg.prev != null && seg.prev in segs && seg.prev.kind != Free
      ensures !more && seg.next != null ==> seg.next in segs && seg.next.kind != Free
      ensures forall s :: s in rest ==> s.size == old(s.size)
    {
      Neighbours(seg);
      var prev := seg.prev;
      if prev != null && prev.kind == Free && prev.base + prev.size == seg.base {
        MergePrev(seg, prev, rest, held);
        return true, prev;
      }
      var next := seg.next;
      if next != null && next.kind == Free && seg.base + seg.size == next.base {
        MergeNext(seg, next, rest, held);
        return true, seg;
      }
      return false, seg;
    }

    /** Merges `first` with free neighbours on both sides as often as possible. */
    method MergeAll(first: Segment, ghost rest: set<Segment>, ghost held: set<Segment>) returns (seg: Segment)
      requires Inv(rest + {first}, held) && first !in rest && forall s :: s in rest ==> s.kind != Free
      modifies this`lists, this`live, this`blocks, this`chain, this`freeSegs, segs
      ensures Inv(rest + {seg}, held) && seg !in rest && live == old(live) && blocks == old(blocks)
      ensures forall s :: s in rest ==> s.base == old(s.base) && s.size == old(s.size) && s.kind == old(s.kind)
      ensures seg.prev != null && seg.prev in segs && seg.prev.kind != Free
      ensures seg.next != null ==> seg.next in segs && seg.next.kind != Free
    {
      seg := first;
      var more := true;
      while more
        invariant Inv(rest + {seg}, held) && seg !in rest && live == old(live) && blocks == old(blocks)
        invariant forall s :: s in rest ==> s.base == old(s.base) && s.size == old(s.size) && s.kind == old(s.kind)
        invariant !more ==> seg.prev != null && seg.prev in segs && seg.prev.kind != Free
        invariant !more && seg.next != null ==> seg.next in segs && seg.next.kind != Free
        decreases |chain| + (if more then 1 else 0)
      {
        more, seg := MergeStep(seg, rest, held);
      }
    }

    /** Puts `first` back, merging it with free neighbours on both sides; the segments in `rest` stay loose. */
    method FreelistInsert(first: Segment, ghost rest: set<Segment>, ghost held: set<Segment>)
      requires Inv(rest + {first}, held) && first !in rest && forall s :: s in rest ==> s.kind != Free
      modifies this`lists, this`live, this`blocks, this`chain, this`freeSegs, segs
      ensures Inv(rest, held) && live == old(live) && blocks == old(blocks)
      ensures forall s :: s in rest ==> s.base == old(s.base) && s.size == old(s.size) && s.kind == old(s.kind)
    {
      var seg := MergeAll(first, rest, held);
      assert rest + {seg} - {seg} == rest;
      FreelistInsertNoMerge(seg, rest + {seg}, held);
    }

    // ---------------------------------------------------------------- splitting

    ghost method Enchain(seg: Segment, piece: Segment)
      requires 0 <= seg.pos < |chain| && seg in segs && piece in segs && seg != piece
      modifies this`chain, segs`pos, piece`on
      ensures chain == old(chain)[..old(seg.pos)] + [piece] + old(chain)[old(seg.pos)..]
      ensures piece.on && piece.pos == old(seg.pos)
      ensures forall s {:trigger s.pos} :: s in segs && s != piece ==>
        s.pos == old(s.pos) + (if old(s.pos) >= old(seg.pos) then 1 else 0)
    {
      ghost var p := seg.pos;
      chain := chain[..p] + [piece] + chain[p..];
      forall s | s in segs { s.pos := s.pos + (if s.pos >= p then 1 else 0); }
      piece.pos, piece.on := p, true;
    }

    /** What cutting `k` bytes off the front of `seg` into `piece` writes, and that it writes nothing else. */
    twostate predicate Carved(seg: Segment, piece: Segment, k: int)
      reads this, segs
    {
      && span == old(span) && seg in segs && piece in segs && seg != piece
      && 0 <= old(seg.pos) < |old(chain)|
      && chain == old(chain)[..old(seg.pos)] + [piece] + old(chain)[old(seg.pos)..]
      && piece.on && piece.pos == old(seg.pos)
      && piece.base == old(seg.base) && piece.size == k && seg.base == old(seg.base) + k
      && seg.size == old(seg.size) - k
      && piece.next == seg && piece.prev == old(seg.prev) && seg.prev == piece
      && (forall s {:trigger s.pos} :: s in segs && s != piece ==>
            s.pos == old(s.pos) + (if old(s.pos) >= old(seg.pos) then 1 else 0))
      && (forall s {:trigger s.on} :: s in segs && s != piece ==> s.on == old(s.on))
      && (forall s {:trigger s.size} :: s in segs && s != piece && s != seg ==> s.size == old(s.size))
      && (forall s {:trigger s.base} :: s in segs && s != piece && s != seg ==> s.base == old(s.base))
      && (forall s {:trigger s.next} :: s in segs && s != piece ==>
            s.next == if s == old(seg.prev) then piece else old(s.next))
      && (forall s {:trigger s.prev} :: s in segs && s != piece && s != seg ==> s.prev == old(s.prev))
      && (forall s {:trigger s.rank} :: s in segs ==> s.rank == old(s.rank))
      && (forall s {:trigger s.home} :: s in segs ==> s.home == old(s.home))
      && (forall s {:trigger s.kind} :: s in segs && s != piece ==> s.kind == old(s.kind))
      && lists == old(lists) && live == old(live) && blocks == old(blocks) && freeSegs == old(freeSegs)
      && taken == old(taken)
      && (forall s {:trigger s.slot} :: s in segs ==> s.slot == old(s.slot))
    }

    /** The writes to the hooks and extents of the two segments. */
    method LinkPiece(seg: Segment, piece: Segment, k: int, kind: Kind)
      requires seg in segs && piece in segs && seg != piece
      requires seg.prev != null && seg.prev in segs && seg.prev != seg && seg.prev != piece
      modifies seg`prev, seg`base, seg`size, piece`prev, piece`next, piece`base, piece`size, piece`kind, seg.prev`next
      ensures piece.base == old(seg.base) && piece.size == k && piece.kind == kind
      ensures seg.base == old(seg.base) + k && seg.size == old(seg.size) - k
      ensures piece.next == seg && piece.prev == old(seg.prev) && seg.prev == piece
      ensures forall s {:trigger s.next} :: s in segs && s != piece ==>
        s.next == if s == old(seg.prev) then piece else old(s.next)
    {
      piece.base := seg.base;
      piece.size := k;
      piece.kind := kind;
      piece.next := seg;
      piece.prev := seg.prev;
      seg.prev.next := piece;
      seg.prev := piece;
      seg.base := seg.base + k;
      seg.size := seg.size - k;
    }

    method CarveRaw(seg: Segment, piece: Segment, k: int, kind: Kind)
      requires seg in segs && piece in segs && seg != piece && 0 <= seg.pos < |chain|
      requires seg.prev != null && seg.prev in segs && seg.prev != seg && seg.prev != piece
      modifies this`chain, segs`pos, seg`prev, seg`base, seg`size, piece`prev, piece`next, piece`base, piece`size
      modifies piece`kind, piece`on, seg.prev`next
      ensures Carved(seg, piece, k) && piece.kind == kind
    {
      LinkPiece(seg, piece, k, kind);
      Enchain(seg, piece);
    }

    twostate lemma CarvedInChain(x: Cutting)
      requires Carved(x.seg, x.piece, x.k) && old(InChain()) && old(x.seg.on && !x.piece.on) && x.piece != span
      ensures InChain()
    {
      assert old(chain[x.seg.pos]) == x.seg;
    }

    /** The hooks of `x.s` are right. */
    twostate lemma CarvedHooks(x: CuttingAt)
      requires Carved(x.seg, x.piece, x.k) && old(Chained()) && InChain() && old(x.seg.on && !x.piece.on)
      requires x.piece != span && x.s in segs
      ensures var s := x.s;
        && (s.on && 0 < s.pos < |chain| ==> s.prev == chain[s.pos - 1])
        && ((s.on || s == span) && 0 <= s.pos < |chain| ==>
              s.next == if s.pos + 1 == |chain| then null else chain[s.pos + 1])
    {
      assert old(chain[x.seg.pos]) == x.seg && old(x.seg.prev) == old(chain[x.seg.pos - 1]);
    }

    twostate lemma CarvedChained(x: Cutting)
      requires Carved(x.seg, x.piece, x.k) && old(Chained()) && old(x.seg.on && !x.piece.on) && x.piece != span
      ensures Chained()
    {
      CarvedInChain(x);
      forall s {:trigger s.prev} {:trigger s.next} | s in segs
        ensures s.on && 0 < s.pos < |chain| ==> s.prev == chain[s.pos - 1]
        ensures (s.on || s == span) && 0 <= s.pos < |chain| ==>
          s.next == if s.pos + 1 == |chain| then null else chain[s.pos + 1]
      {
        CarvedHooks(CuttingAt(x.seg, x.piece, x.k, s));
      }
    }

    twostate lemma CarvedTiled(x: Cutting)
      requires Carved(x.seg, x.piece, x.k) && old(Chained()) && old(Tiled()) && Chained()
      requires old(x.seg.on && !x.piece.on) && x.piece != span
      requires 0 < x.k < old(x.seg.size)
      ensures Tiled()
    {
      var Cutting(seg, piece, k) := x;
      assert old(seg.size > 0);
      assert old(chain[seg.pos]) == seg && old(seg.prev) == old(chain[seg.pos - 1]);
      assert old(span.next) == old(chain[1]);
    }

    twostate lemma CarvedBooks(x: CuttingIn)
      requires Carved(x.seg, x.piece, x.k) && Chained() && x.seg in x.loose && x.piece in x.held && old(x.seg.on)
      requires old(Apart(x.loose) && Listed(x.loose) && Homed(x.loose) && Hashed(x.loose) && Owned(x.loose))
      requires old(Spare(x.held) && Kinds())
      requires x.piece.kind != Span
      ensures Apart(x.loose + {x.piece}) && Listed(x.loose + {x.piece}) && Homed(x.loose + {x.piece})
      ensures Hashed(x.loose + {x.piece}) && Owned(x.loose + {x.piece})
      ensures Spare(x.held - {x.piece}) && Kinds()
    {
    }

    /** Cuts the first `k` bytes off the loose segment `seg`; the descriptor `piece` describes them. */
    method Carve(seg: Segment, piece: Segment, k: int, kind: Kind, ghost loose: set<Segment>, ghost held: set<Segment>)
      requires Inv(loose, held) && seg in loose && piece in held && 0 < k < seg.size && kind != Span
      modifies this`chain, segs`pos, seg`prev, seg`base, seg`size, piece`prev, piece`next, piece`base, piece`size
      modifies piece`kind, piece`on, segs`next
      ensures Inv(loose + {piece}, held - {piece}) && piece.kind == kind
      ensures piece.base == old(seg.base) && piece.size == k && piece.next == seg && piece.prev == old(seg.prev)
      ensures seg.base == old(seg.base) + k && seg.size == old(seg.size) - k && seg.prev == piece
      ensures seg.next == old(seg.next)
    {
      Neighbours(seg);
      assert chain[seg.pos] == seg;
      CarveRaw(seg, piece, k, kind);
      CarvedChained(Cutting(seg, piece, k));
      CarvedTiled(Cutting(seg, piece, k));
      CarvedBooks(CuttingIn(seg, piece, k, loose, held));
    }

    // ---------------------------------------------------------------- descriptors

    /** Puts the descriptors of a new page on the free stack; the first slot of the page links the pages. */
    method Refill(ghost held: set<Segment>)
      requires Supplied() && Spare(held) && freeSegs == [] && taken < |supply|
      modifies this`freeSegs, this`taken, segs`slot
      ensures Spare(held) && |freeSegs| == SEGMENTS_PER_PAGE - 1 && taken == old(taken) + 1
    {
      freeSegs := supply[taken][1..];
      forall s | s in segs { s.slot := if s.page == taken then s.place - 1 else s.slot; }
      taken := taken + 1;
    }

    method PopDescriptor(ghost held: set<Segment>) returns (seg: Segment)
      requires Spare(held) && freeSegs != []
      modifies this`freeSegs
      ensures Spare(held + {seg}) && seg !in held && |freeSegs| == |old(freeSegs)| - 1
    {
      seg := freeSegs[|freeSegs| - 1];
      assert seg.slot == |freeSegs| - 1;
      freeSegs := freeSegs[..|freeSegs| - 1];
    }

    /** Takes a descriptor off the free stack, which is refilled from a new page when it is empty. */
    method SegAlloc(ghost held: set<Segment>) returns (seg: Segment?)
      requires Supplied() && Spare(held)
      modifies this`freeSegs, this`taken, segs`slot
      ensures seg == null <==> old(freeSegs) == [] && old(taken) == |supply|
      ensures seg == null ==> Spare(held) && Descriptors() == old(Descriptors())
      ensures seg != null ==> Spare(held + {seg}) && seg !in held && Descriptors() == old(Descriptors()) - 1
    {
      if freeSegs == [] {
        if taken == |supply| {
          return null;
        }
        Refill(held);
      }
      seg := PopDescriptor(held);
    }

    /** The number of descriptors that `SegAlloc` can still hand out. */
    ghost function Descriptors(): int
      reads this`freeSegs, this`taken
    {
      |freeSegs| + 72 * (|supply| - taken)
    }

    method SegFree(seg: Segment, ghost held: set<Segment>)
      requires Spare(held) && seg in held
      modifies this`freeSegs, seg`slot
      ensures Spare(held - {seg}) && Descriptors() == old(Descriptors()) + 1
    {
      seg.slot := |freeSegs|;
      freeSegs := freeSegs + [seg];
    }

    // ---------------------------------------------------------------- freeing

    /** Looks for the live segment at `key` in its hash bucket. */
    method BucketFind(key: int) returns (r: Segment?)
      requires Listed({}) && Homed({}) && Hashed({}) && Owned({}) && Kinds() && 0 <= key
      ensures r == null ==> key !in live
      ensures r != null ==> key in live && r == live[key] && r in segs && r.on && r.kind == Used
      ensures r != null ==> r.home == FREELISTS + Bucket(key)
    {
      var i := FREELISTS + Bucket(key);
      var list := lists[i];
      if key in live {
        ghost var s := live[key];
        assert s.home >= 0 && s.rank >= 0 && lists[s.home][s.rank] == s;
      }
      for j := 0 to |list|
        invariant forall k :: 0 <= k < j ==> list[k].base != key
      {
        assert lists[i][j].on;
        if list[j].base == key {
          assert list[j].home >= 0 && list[j].kind == Used;
          return list[j];
        }
      }
      return null;
    }

    /** Finds the live segment at `key` in its bucket and takes it out. */
    method HashtabRemove(key: int) returns (r: Segment?)
      requires Inv({}, {}) && 0 <= key
      modifies this`lists, this`live, this`blocks, segs`rank
      ensures Inv(if r == null then {} else {r}, {}) && (r == null <==> key !in old(live))
      ensures (r != null ==> r == old(live)[key])
      ensures live == old(live) - {key} && blocks == old(blocks) - {key}
    {
      r := BucketFind(key);
      if r != null {
        assert r.base == key;
        TakeOut(FREELISTS + Bucket(key), r, {}, {});
        assert {} + {r} == {r};
      }
    }

    ghost predicate Valid()
      reads this, segs, span
    {
      Inv({}, {})
    }

    method Xfree(ptr: int, size: int)
      requires Valid() && 0 <= ptr && 0 <= size < U64
      requires ptr in blocks ==> blocks[ptr] == AlignUp(size, quantum)
      modifies this`lists, this`live, this`blocks, this`chain, this`freeSegs, segs
      ensures Valid() && blocks == old(blocks) - {ptr}
    {
      var seg := HashtabRemove(ptr);
      if seg == null {
        return;
      }
      assert {} + {seg} == {seg};
      FreelistInsert(seg, {}, {});
    }

    // ---------------------------------------------------------------- allocating

    method CarveFront(seg: Segment, k: int, front: Segment, ghost held: set<Segment>)
      returns (ghost both: set<Segment>, ghost rest: set<Segment>)
      requires Inv({seg}, held) && front in held && 0 < k < seg.size
      requires seg.prev != null && seg.prev in segs && seg.prev.kind != Free
      modifies this`chain, segs
      ensures both - {front} == {seg} && rest == held - {front} && Inv(both, rest) && front in both && front.size == k
      ensures front.prev != null && front.prev in segs && front.prev.kind != Free && front.next == seg && seg in both
      ensures seg.base == old(seg.base) + k && seg.size == old(seg.size) - k
    {
      both, rest := {seg} + {front}, held - {front};
      Carve(seg, front, k, Free, {seg}, held);
    }

    /** Cuts the first `k` bytes off the loose segment `seg`; they stay free. */
    method CutFront(seg: Segment, k: int, front: Segment, ghost held: set<Segment>)
      requires Inv({seg}, held) && front in held && 0 < k < seg.size
      requires seg.prev != null && seg.prev in segs && seg.prev.kind != Free
      modifies this`lists, this`live, this`blocks, this`chain, segs
      ensures Inv({seg}, held - {front}) && seg.base == old(seg.base) + k && seg.size == old(seg.size) - k
      ensures blocks == old(blocks)
    {
      ghost var both, rest := CarveFront(seg, k, front, held);
      FreelistInsertNoMerge(front, both, rest);
    }

    /** Uses all of the loose segment `seg`; the descriptor in hand goes back. */
    method CutWhole(seg: Segment, alloc: Segment)
      requires Inv({seg}, {alloc})
      modifies this`lists, this`live, this`blocks, this`freeSegs, segs
      ensures Valid() && old(seg.base) !in old(blocks) && blocks == old(blocks)[old(seg.base) := old(seg.size)]
    {
      SegFree(alloc, {alloc});
      assert {alloc} - {alloc} == {} && {seg} - {seg} == {};
      HashtabInsert(seg, {seg}, {});
    }

    /** Uses the first bytes of the loose segment `seg`; the rest goes back to the free lists. */
    method CutPart(seg: Segment, size: int, alloc: Segment)
      requires Inv({seg}, {alloc}) && 0 < size < seg.size
      modifies this`lists, this`live, this`blocks, this`chain, this`freeSegs, segs
      ensures Valid() && old(seg.base) !in old(blocks) && blocks == old(blocks)[old(seg.base) := size]
    {
      Carve(seg, alloc, size, Used, {seg}, {alloc});
      assert {alloc} - {alloc} == {} && {seg} + {alloc} == {alloc} + {seg};
      FreelistInsert(seg, {alloc}, {});
      HashtabInsert(alloc, {alloc}, {});
    }

    method CutEnd(seg: Segment, size: int, alloc: Segment) returns (addr: int)
      requires Inv({seg}, {alloc}) && 0 < size <= seg.size
      modifies this`lists, this`live, this`blocks, this`chain, this`freeSegs, segs
      ensures Valid() && addr == old(seg.base) && addr !in old(blocks) && blocks == old(blocks)[addr := size]
    {
      addr := seg.base;
      if seg.size == size {
        CutWhole(seg, alloc);
      } else {
        CutPart(seg, size, alloc);
      }
    }

    /** Uses the part of the loose segment `seg` from `start` on; what lies before and after it stays free. */
    method Cut(seg: Segment, size: int, start: int, alloc: Segment, front: Segment?, ghost held: set<Segment>)
      returns (addr: int)
      requires Inv({seg}, held) && held == (if front == null then {alloc} else {alloc, front}) && alloc != front
      requires seg.base <= start && 0 < size <= seg.base + seg.size - start && size < seg.size
      requires start != seg.base <==> front != null
      requires seg.prev != null && seg.prev in segs && seg.prev.kind != Free
      modifies this`lists, this`live, this`blocks, this`chain, this`freeSegs, segs
      ensures Valid() && addr == start && start !in old(blocks) && blocks == old(blocks)[start := size]
    {
      if front != null {
        CutFront(seg, start - seg.base, front, held);
        assert held - {front} == {alloc};
      }
      addr := CutEnd(seg, size, alloc);
    }

    /** The neighbours of a free segment are not free. */
    lemma FreeNeighbours(seg: Segment, held: set<Segment>)
      requires Inv({}, held) && seg in segs && seg.on && seg.kind == Free
      ensures seg.prev != null && seg.prev in segs && seg.prev.kind != Free
      ensures seg.next != null ==> seg.next in segs && seg.next.kind != Free
    {
      Neighbours(seg);
    }

    /** Gets one descriptor, and a second one if `two`; or none when they have run out. */
    method GetDescriptors(two: bool) returns (alloc: Segment?, front: Segment?, ghost held: set<Segment>)
      requires Supplied() && Spare({})
      modifies this`freeSegs, this`taken, segs`slot
      ensures Spare(held)
      ensures alloc != null <==> (if two then 2 else 1) <= old(Descriptors())
      ensures alloc == null ==> Descriptors() == old(Descriptors()) && held == {}
      ensures alloc != null ==> held == if two then {alloc, front} else {alloc}
      ensures alloc != null ==> alloc != front && (two <==> front != null)
    {
      front, held := null, {};
      alloc := SegAlloc({});
      if alloc == null {
        return;
      }
      held := {} + {alloc};
      if two {
        front := SegAlloc(held);
        if front == null {
          SegFree(alloc, held);
          held := held - {alloc};
          alloc := null;
          return;
        }
        held := held + {front};
      }
    }

    method UseWhole(i: int, seg: Segment)
      requires Valid() && seg in segs && seg.on && seg.home == i && seg.kind == Free
      modifies this`lists, this`live, this`blocks, segs
      ensures Valid() && seg.base == old(seg.base) && seg.base !in old(blocks)
      ensures blocks == old(blocks)[seg.base := old(seg.size)]
    {
      TakeOut(i, seg, {}, {});
      assert {} + {seg} == {seg} && {seg} - {seg} == {};
      HashtabInsert(seg, {seg}, {});
    }

    method CutFrom(i: int, seg: Segment, size: int, start: int, alloc: Segment, front: Segment?,
                   ghost held: set<Segment>)
      returns (addr: int)
      requires Inv({}, held) && held == (if front == null then {alloc} else {alloc, front}) && alloc != front
      requires seg in segs && seg.on && seg.home == i && seg.kind == Free
      requires seg.base <= start && 0 < size <= seg.base + seg.size - start && size < seg.size
      requires start != seg.base <==> front != null
      modifies this`lists, this`live, this`blocks, this`chain, this`freeSegs, segs
      ensures Valid() && addr == start && start !in old(blocks) && blocks == old(blocks)[start := size]
    {
      FreeNeighbours(seg, held);
      TakeOut(i, seg, {}, held);
      assert {} + {seg} == {seg};
      addr := Cut(seg, size, start, alloc, front, held);
    }

    /** The search of list `i` gets as far as place `k`, and the segment there has room. */
    ghost predicate Offer(i: int, k: int, size: int, min: int, max: int)
      reads this`lists, segs`base, segs`size
    {
      && 0 <= i < |lists| && 0 <= k < |lists[i]| && lists[i][0] in segs && lists[i][k] in segs
      && (lists[i][0].size >= size ==> k == 0)
      && Fits(lists[i][k].base, lists[i][k].size, size, min, max)
    }

    /** How many descriptors it takes to use `size` bytes of `seg` from `min` on. */
    ghost function Needs(seg: Segment, size: int, min: int): int
      reads seg`base, seg`size
    {
      if seg.size == size then 0 else if min > seg.base then 2 else 1
    }

    /** The search can use what is at place `k` of list `i`, when there are `d` descriptors. */
    ghost predicate Serves(i: int, k: int, size: int, min: int, max: int, d: int)
      reads this`lists, segs`base, segs`size
    {
      Offer(i, k, size, min, max) && Needs(lists[i][k], size, min) <= d
    }

    /** No list from `index` on has a segment that can be used. */
    ghost predicate NothingServes(index: int, size: int, min: int, max: int, d: int)
      reads this`lists, segs`base, segs`size
    {
      forall x, y :: index <= x < FREELISTS ==> !Serves(x, y, size, min, max, d)
    }

    /** Place `k` of list `i` is the first one from list `index` on that can be used. */
    ghost predicate ServedFirst(i: int, k: int, index: int, size: int, min: int, max: int, d: int)
      reads this`lists, segs`base, segs`size
    {
      && index <= i < FREELISTS && Serves(i, k, size, min, max, d)
      && (forall x, y :: index <= x <= i && (x < i || y < k) ==> !Serves(x, y, size, min, max, d))
    }

    /** The descriptors in hand are those that using `size` bytes of `seg` from `min` on takes. */
    ghost predicate Reserved(seg: Segment, size: int, min: int, alloc: Segment?, front: Segment?, held: set<Segment>)
      reads seg`base, seg`size
    {
      if seg.size == size then held == {}
      else alloc != null && alloc != front && (min > seg.base <==> front != null)
           && held == if front == null then {alloc} else {alloc, front}
    }

    /** Decides about one segment: `ok` says that it has room and that the descriptors its use needs are at hand. */
    method Ready(seg: Segment, size: int, min: int, max: int)
      returns (ok: bool, alloc: Segment?, front: Segment?, ghost held: set<Segment>)
      requires Supplied() && Spare({}) && size > 0
      modifies this`freeSegs, this`taken, segs`slot
      ensures Spare(held)
      ensures ok <==> Fits(seg.base, seg.size, size, min, max) && Needs(seg, size, min) <= old(Descriptors())
      ensures ok ==> Reserved(seg, size, min, alloc, front, held)
      ensures !ok ==> held == {} && Descriptors() == old(Descriptors())
    {
      ok, alloc, front, held := false, null, null, {};
      if Fits(seg.base, seg.size, size, min, max) {
        if seg.size == size {
          ok := true;
        } else {
          alloc, front, held := GetDescriptors(Max(seg.base, min) != seg.base);
          ok := alloc != null;
        }
      }
    }

    /** The search of one free list: the head if it is large enough, or else the whole list. */
    method FindInList(i: int, size: int, min: int, max: int, ghost d: int)
      returns (found: Segment?, alloc: Segment?, front: Segment?, ghost held: set<Segment>, ghost k: int)
      requires Supplied() && Spare({}) && Listed({}) && 0 <= i < FREELISTS && size > 0 && d == Descriptors()
      modifies this`freeSegs, this`taken, segs`slot
      ensures Spare(held)
      ensures found != null ==> Serves(i, k, size, min, max, d) && lists[i][k] == found
      ensures found != null ==> Reserved(found, size, min, alloc, front, held)
      ensures found != null ==> forall y :: y < k ==> !Serves(i, y, size, min, max, d)
      ensures found == null ==> held == {} && Descriptors() == d
      ensures found == null ==> forall y :: !Serves(i, y, size, min, max, d)
    {
      found, alloc, front, held, k := null, null, null, {}, 0;
      var list := lists[i];
      var bound := if list != [] && list[0].size >= size then 1 else |list|;
      for j := 0 to bound
        invariant Spare({}) && Descriptors() == d
        invariant forall y :: y < j ==> !Serves(i, y, size, min, max, d)
      {
        assert lists[i][j] in segs && lists[i][0] in segs;
        var ok;
        ok, alloc, front, held := Ready(list[j], size, min, max);
        if ok {
          found, k := list[j], j;
          return;
        }
      }
      alloc, front, held := null, null, {};
    }

    /** Searches the free lists from `index` on. */
    method FindSegment(index: int, size: int, min: int, max: int, ghost d: int)
      returns (found: Segment?, alloc: Segment?, front: Segment?, ghost held: set<Segment>, i: int, ghost k: int)
      requires Supplied() && Spare({}) && Listed({}) && 0 <= index && size > 0 && d == Descriptors()
      modifies this`freeSegs, this`taken, segs`slot
      ensures Spare(held)
      ensures found != null ==> ServedFirst(i, k, index, size, min, max, d) && lists[i][k] == found
      ensures found != null ==> Reserved(found, size, min, alloc, front, held)
      ensures found == null ==> held == {} && NothingServes(index, size, min, max, d)
    {
      found, alloc, front, held, i, k := null, null, null, {}, index, 0;
      while i < FREELISTS
        invariant index <= i && Spare({}) && found == null && held == {} && Descriptors() == d
        invariant forall x, y :: index <= x < i && x < FREELISTS ==> !Serves(x, y, size, min, max, d)
      {
        found, alloc, front, held, k := FindInList(i, size, min, max, d);
        if found != null {
          return;
        }
        i := i + 1;
      }
    }

    /** No free list from `index` on offers a segment. */
    ghost predicate NoOffer(index: int, size: int, min: int, max: int)
      reads this`lists, segs`base, segs`size
    {
      forall x, y :: index <= x < FREELISTS ==> !Offer(x, y, size, min, max)
    }

    method Commit(i: int, seg: Segment, size: int, min: int, alloc: Segment?, front: Segment?, ghost held: set<Segment>)
      returns (addr: int)
      requires Inv({}, held) && Reserved(seg, size, min, alloc, front, held)
      requires seg in segs && seg.on && seg.home == i && seg.kind == Free
      requires 0 < size <= seg.base + seg.size - Max(seg.base, min)
      modifies this`lists, this`live, this`blocks, this`chain, this`freeSegs, segs
      ensures Valid() && addr == old(Max(seg.base, min)) && addr !in old(blocks) && blocks == old(blocks)[addr := size]
    {
      if seg.size == size {
        UseWhole(i, seg);
        addr := seg.base;
      } else {
        addr := CutFrom(i, seg, size, Max(seg.base, min), alloc, front, held);
      }
    }

    /** The address that the first segment that can be used, from place `k` of list `i` on, gives; 0 if there is
        none. */
    ghost function FirstFrom(i: nat, k: nat, size: int, min: int, max: int, d: int): int
      reads this`lists, segs`base, segs`size
      decreases FREELISTS - i, if i < |lists| then |lists[i]| - k else 0
    {
      if i >= FREELISTS || i >= |lists| then 0
      else if k >= |lists[i]| then FirstFrom(i + 1, 0, size, min, max, d)
      else if Serves(i, k, size, min, max, d) then Max(lists[i][k].base, min)
      else FirstFrom(i, k + 1, size, min, max, d)
    }

    /** Where a request is served when there are `d` descriptors: by the first segment from its list on that can be
        used; 0 if there is none. */
    ghost function Chosen(size: int, min: int, max: int, d: int): int
      requires size > 0
      reads this`lists, segs`base, segs`size
    {
      FirstFrom(Log2(size), 0, size, min, max, d)
    }

    ghost function Choice(size: int, min: int, max: int): int
      requires size > 0
      reads this`lists, this`freeSegs, this`taken, segs`base, segs`size
    {
      Chosen(size, min, max, Descriptors())
    }

    lemma {:induction false} FirstFromIs(i: nat, k: nat, x: int, y: int, index: int, size: int, min: int, max: int,
                                         d: int)
      requires ServedFirst(x, y, index, size, min, max, d) && index <= i <= x && (i == x ==> k <= y)
      requires |lists| >= FREELISTS
      ensures FirstFrom(i, k, size, min, max, d) == Max(lists[x][y].base, min)
      decreases FREELISTS - i, if i < |lists| then |lists[i]| - k else 0
    {
      if i < x && k >= |lists[i]| {
        FirstFromIs(i + 1, 0, x, y, index, size, min, max, d);
      } else if i < x || k < y {
        FirstFromIs(i, k + 1, x, y, index, size, min, max, d);
      }
    }

    lemma {:induction false} FirstFromNone(i: nat, k: nat, index: int, size: int, min: int, max: int, d: int)
      requires NothingServes(index, size, min, max, d) && index <= i
      ensures FirstFrom(i, k, size, min, max, d) == 0
      decreases FREELISTS - i, if i < |lists| then |lists[i]| - k else 0
    {
      if i < FREELISTS && i < |lists| {
        if k >= |lists[i]| {
          FirstFromNone(i + 1, 0, index, size, min, max, d);
        } else {
          FirstFromNone(i, k + 1, index, size, min, max, d);
        }
      }
    }

    /** That is the first place. */
    lemma ChosenIs(i: int, k: int, size: int, min: int, max: int, d: int)
      requires size > 0 && ServedFirst(i, k, Log2(size), size, min, max, d) && |lists| >= FREELISTS
      ensures Chosen(size, min, max, d) == Max(lists[i][k].base, min)
    {
      FirstFromIs(Log2(size), 0, i, k, Log2(size), size, min, max, d);
    }

    lemma NoneChosen(size: int, min: int, max: int, d: int)
      requires size > 0 && NothingServes(Log2(size), size, min, max, d)
      ensures Chosen(size, min, max, d) == 0
    {
      FirstFromNone(Log2(size), 0, Log2(size), size, min, max, d);
    }

    /** An offered segment is free and has room from `min` on, inside the range. */
    lemma OfferedIsFree(i: int, k: int, size: int, min: int, max: int)
      requires Listed({}) && Homed({}) && 0 <= i < FREELISTS && size > 0 && Offer(i, k, size, min, max)
      ensures var s := lists[i][k];
        && s in segs && s.on && s.home == i && s.kind == Free && s.base > 0
        && size <= s.base + s.size - Max(s.base, min) && Max(s.base, min) + size <= max
    {
    }

    method FindIn(index: int, size: int, min: int, max: int, ghost d: int)
      returns (found: Segment?, alloc: Segment?, front: Segment?, ghost held: set<Segment>, i: int, ghost k: int)
      requires Valid() && 0 <= index && size > 0 && d == Descriptors()
      modifies this`freeSegs, this`taken, segs`slot
      ensures Inv({}, held)
      ensures found != null ==> ServedFirst(i, k, index, size, min, max, d) && lists[i][k] == found
      ensures found != null ==> Reserved(found, size, min, alloc, front, held)
      ensures found == null ==> held == {} && NothingServes(index, size, min, max, d)
    {
      found, alloc, front, held, i, k := FindSegment(index, size, min, max, d);
    }

    lemma FoundFacts(i: int, k: int, size: int, min: int, max: int, d: int)
      requires Listed({}) && Homed({}) && size > 0 && ServedFirst(i, k, Log2(size), size, min, max, d)
      ensures var s := lists[i][k];
        && s in segs && s.on && s.home == i && s.kind == Free && s.base > 0
        && size <= s.base + s.size - Max(s.base, min) && Max(s.base, min) + size <= max
        && Chosen(size, min, max, d) == Max(s.base, min)
    {
      OfferedIsFree(i, k, size, min, max);
      ChosenIs(i, k, size, min, max, d);
    }

    /** A free segment starts where the arena or a live block leaves off. */
    lemma FreeAbuts(seg: Segment, held: set<Segment>)
      requires Inv({}, held) && seg in segs && seg.on && seg.kind == Free
      ensures Abuts(seg.base, base, blocks)
    {
      FreeNeighbours(seg, held);
      Neighbours(seg);
      var prev := seg.prev;
      assert chain[seg.pos] == seg && prev == chain[seg.pos - 1] && prev.pos == seg.pos - 1;
      if prev.on {
        var b := prev.base;
        assert prev.kind == Used && prev.size > 0 && live[b] == prev;
      }
    }

    method FindFree(size: int, min: int, max: int, ghost d: int)
      returns (i: int, found: Segment?, alloc: Segment?, front: Segment?, ghost held: set<Segment>)
      requires Valid() && size > 0 && d == Descriptors()
      modifies this`freeSegs, this`taken, segs`slot
      ensures Inv({}, held)
      ensures found == null ==> held == {} && Chosen(size, min, max, d) == 0
      ensures found != null ==>
        && Reserved(found, size, min, alloc, front, held) && Chosen(size, min, max, d) == Max(found.base, min)
        && found in segs && found.on && found.home == i && found.kind == Free && found.base > 0
        && size <= found.base + found.size - Max(found.base, min) && Max(found.base, min) + size <= max
    {
      ghost var k;
      found, alloc, front, held, i, k := FindIn(Log2(size), size, min, max, d);
      if found != null {
        FoundFacts(i, k, size, min, max, d);
      } else {
        NoneChosen(size, min, max, d);
      }
    }

    method Search(size: int, min: int, max: int, ghost d: int)
      returns (i: int, found: Segment?, alloc: Segment?, front: Segment?, ghost held: set<Segment>)
      requires Valid() && size > 0 && d == Descriptors()
      modifies this`freeSegs, this`taken, segs`slot
      ensures Inv({}, held)
      ensures found == null ==> held == {} && Chosen(size, min, max, d) == 0
      ensures found != null ==>
        && Reserved(found, size, min, alloc, front, held) && Chosen(size, min, max, d) == Max(found.base, min)
        && found in segs && found.on && found.home == i && found.kind == Free && found.base > 0
        && size <= found.base + found.size - Max(found.base, min) && Max(found.base, min) + size <= max
        && Abuts(found.base, base, old(blocks))
    {
      i, found, alloc, front, held := FindFree(size, min, max, d);
      if found != null {
        FreeAbuts(found, held);
      }
    }

    // ---------------------------------------------------------------- the arena from outside

    /** The segments of the arena, in address order. */
    ghost function View(): seq<Extent>
      reads this`chain, chain
    {
      ExtentsOf(chain, 1)
    }

    lemma {:induction false} ViewTiles(i: int)
      requires Chained() && Tiled() && 1 <= i <= |chain|
      ensures Tiles(ExtentsOf(chain, i), if i == |chain| then base + size else chain[i].base, base + size)
      decreases |chain| - i
    {
      if i < |chain| {
        assert chain[i].on && chain[i].size > 0 && chain[i].next == if i + 1 == |chain| then null else chain[i + 1];
        ViewTiles(i + 1);
        assert ExtentsOf(chain, i)[1..] == ExtentsOf(chain, i + 1);
      }
    }

    /** `m` holds the live blocks of the segments from place `i` on. */
    ghost predicate BlocksFrom(m: map<int, int>, i: int)
      reads this`live, this`blocks, segs`pos
    {
      && live.Keys == blocks.Keys
      && (forall b {:trigger b in m} :: b in m ==>
            b in live && live[b] in segs && live[b].pos >= i && m[b] == blocks[b])
      && (forall b {:trigger live[b]} :: b in live && live[b] in segs && live[b].pos >= i ==> b in m)
    }

    lemma {:induction false} ViewLive(i: int)
      requires Chained() && Kinds() && Owned({}) && 1 <= i <= |chain|
      ensures BlocksFrom(Live(ExtentsOf(chain, i)), i)
      decreases |chain| - i
    {
      if i == |chain| {
        forall b | b in live ensures live[b].pos < i {
          assert live[b].on;
        }
      } else {
        ViewLive(i + 1);
        ViewLiveStep(i, Live(ExtentsOf(chain, i + 1)));
        assert ExtentsOf(chain, i)[1..] == ExtentsOf(chain, i + 1);
      }
    }

    lemma ViewLiveStep(i: int, m: map<int, int>)
      requires Chained() && Kinds() && Owned({}) && 1 <= i < |chain| && BlocksFrom(m, i + 1)
      ensures BlocksFrom(if chain[i].kind == Used then m[chain[i].base := chain[i].size] else m, i)
    {
      var s := chain[i];
      assert s.on && s.kind != Span;
      forall b | b in live ensures live[b].pos == i ==> live[b] == s {
        assert live[b].on && chain[live[b].pos] == live[b];
      }
    }

    lemma {:induction false} ViewAt(i: int, k: int)
      requires 0 <= i <= |chain| && i <= k < |chain|
      ensures |ExtentsOf(chain, i)| == |chain| - i
      ensures ExtentsOf(chain, i)[k - i] == Extent(chain[k].base, chain[k].size, chain[k].kind == Used)
      decreases |chain| - i
    {
      if i < k {
        ViewAt(i + 1, k);
      } else if k + 1 < |chain| {
        ViewAt(i + 1, k + 1);
      }
    }

    lemma ViewCoalesced()
      requires Chained() && Kinds() && Apart({})
      ensures Coalesced(View())
    {
      ViewAt(1, 1);
      forall j | 0 <= j < |View()| - 1
        ensures View()[j].used || View()[j + 1].used
      {
        ViewAt(1, j + 1);
        ViewAt(1, j + 2);
        assert chain[j + 1].on && chain[j + 2].on && chain[j + 1].next == chain[j + 2];
        assert chain[j + 1].kind != Span && chain[j + 2].kind != Span;
      }
    }

    lemma ViewIsLive()
      requires Chained() && Kinds() && Owned({})
      ensures Live(View()) == blocks
    {
      var m := Live(View());
      ViewLive(1);
      forall b | b in live ensures live[b].pos >= 1 && b in m {
        assert live[b].on && chain[live[b].pos] == live[b];
      }
      assert forall b :: b in m ==> b in live && m[b] == blocks[b];
    }

    /** The segments tile the arena, no two neighbours are free, and the used ones are the live blocks. */
    lemma ViewFacts()
      requires Valid()
      ensures Tiles(View(), base, base + size) && Coalesced(View()) && Live(View()) == blocks
    {
      assert span.next == chain[1];
      ViewTiles(1);
      ViewCoalesced();
      ViewIsLive();
    }

    /** Live blocks lie inside the arena and do not overlap. */
    lemma BlocksApart(b: int, c: int)
      requires Valid() && b in blocks && c in blocks && b != c
      ensures base <= b && blocks[b] > 0 && b + blocks[b] <= base + size
      ensures b + blocks[b] <= c || c + blocks[c] <= b
    {
      ViewFacts();
      TilesBounds(View(), base, base + size);
      LiveDisjoint(View(), base, base + size, Min(b, c), Max(b, c));
    }

    lemma NewBlockApart(before: map<int, int>, addr: int, wanted: int)
      requires Valid() && addr !in before && blocks == before[addr := wanted]
      ensures base <= addr && addr + wanted <= base + size
      ensures forall b :: b in before ==> b + before[b] <= addr || addr + wanted <= b
    {
      ViewFacts();
      TilesBounds(View(), base, base + size);
      forall b | b in before ensures b + before[b] <= addr || addr + wanted <= b {
        BlocksApart(b, addr);
      }
    }

    // ---------------------------------------------------------------- what a search misses

    /** No free segment has `wanted` bytes. */
    ghost predicate NoRoom(wanted: int)
      reads segs`on, segs`kind, segs`size
    {
      forall s {:trigger s.size} :: s in segs && s.on && s.kind == Free ==> s.size < wanted
    }

    /** The head of the list of `s` is large enough but not inside the range. */
    ghost predicate Shadowed(s: Segment, wanted: int, min: int, max: int)
      reads this`lists, segs`base, segs`size, s`home
    {
      && 0 <= s.home < |lists| && lists[s.home] != [] && lists[s.home][0] in segs && lists[s.home][0].size >= wanted
      && !Fits(lists[s.home][0].base, lists[s.home][0].size, wanted, min, max)
    }

    /** Every free segment with room inside the range is shadowed. */
    ghost predicate AllShadowed(wanted: int, min: int, max: int)
      reads this`lists, segs`base, segs`size, segs`home, segs`on, segs`kind
    {
      forall s {:trigger s.size} ::
        s in segs && s.on && s.kind == Free && Fits(s.base, s.size, wanted, min, max) ==> Shadowed(s, wanted, min, max)
    }

    lemma OfferedOrShadowed(s: Segment, wanted: int, min: int, max: int)
      requires Listed({}) && Homed({}) && wanted > 0 && NoOffer(Log2(wanted), wanted, min, max)
      requires s in segs && s.on && s.kind == Free && Fits(s.base, s.size, wanted, min, max)
      ensures Shadowed(s, wanted, min, max)
    {
      assert s.home >= 0 && s.rank >= 0 && lists[s.home][s.rank] == s;
      Log2Monotone(wanted, s.size);
      assert lists[s.home][0].on;
      assert !Offer(s.home, 0, wanted, min, max) && !Offer(s.home, s.rank, wanted, min, max);
    }

    /** A request finds a segment exactly when some free segment with room inside the range is not shadowed. */
    lemma SearchIsExact(wanted: int, min: int, max: int)
      requires Valid() && wanted > 0
      ensures NoOffer(Log2(wanted), wanted, min, max) <==> AllShadowed(wanted, min, max)
    {
      if NoOffer(Log2(wanted), wanted, min, max) {
        forall s | s in segs && s.on && s.kind == Free && Fits(s.base, s.size, wanted, min, max)
          ensures Shadowed(s, wanted, min, max)
        {
          OfferedOrShadowed(s, wanted, min, max);
        }
      }
      if AllShadowed(wanted, min, max) {
        forall i, k | Log2(wanted) <= i < FREELISTS ensures !Offer(i, k, wanted, min, max) {
          if Offer(i, k, wanted, min, max) {
            OfferedIsFree(i, k, wanted, min, max);
          }
        }
      }
    }

    lemma FitsAnywhere(s: Segment, wanted: int)
      requires Valid() && wanted > 0 && s in segs && s.on
      ensures Fits(s.base, s.size, wanted, 0, U64 - 1) <==> s.size >= wanted
    {
      SegBounds(s);
    }

    /** A request without a range finds a segment exactly when some free segment is large enough. */
    lemma UnrangedIsComplete(wanted: int)
      requires Valid() && wanted > 0
      ensures NoOffer(Log2(wanted), wanted, 0, U64 - 1) <==> NoRoom(wanted)
    {
      SearchIsExact(wanted, 0, U64 - 1);
      forall s | s in segs && s.on && s.kind == Free
        ensures (Fits(s.base, s.size, wanted, 0, U64 - 1) <==> s.size >= wanted) && !Shadowed(s, wanted, 0, U64 - 1)
      {
        FitsAnywhere(s, wanted);
        assert s.home >= 0 && s.rank >= 0;
        assert lists[s.home][0].on;
        FitsAnywhere(lists[s.home][0], wanted);
      }
    }

    /** Allocating the page at 0x3000 of a fresh arena of six pages leaves two free segments in one list. */
    lemma TwoFreeRuns() returns (a: Segment, b: Segment)
      requires Valid() && base == 0x1000 && size == 0x6000 && blocks == map[0x3000 := 0x1000]
      ensures a in segs && a.on && a.kind == Free && a.base == 0x1000 && a.size == 0x2000
      ensures b in segs && b.on && b.kind == Free && b.base == 0x4000 && b.size == 0x3000
      ensures forall s {:trigger s.kind} :: s in segs && s.on && s.kind == Free ==> s == a || s == b
    {
      var e := [Extent(0x1000, 0x2000, false), Extent(0x3000, 0x1000, true), Extent(0x4000, 0x3000, false)];
      ViewFacts();
      assert Tiles(e[1..][1..], 0x4000, 0x7000) && Tiles(e[1..], 0x3000, 0x7000) && Tiles(e, 0x1000, 0x7000);
      assert Live(e[1..][1..]) == map[] && Live(e) == map[0x3000 := 0x1000];
      Canonical(View(), e, 0x1000, 0x7000);
      ViewAt(1, 1);
      ViewAt(1, 2);
      ViewAt(1, 3);
      a, b := chain[1], chain[3];
      assert a.kind != Span && b.kind != Span;
      forall s | s in segs && s.on && s.kind == Free ensures s == a || s == b {
        assert chain[s.pos] == s && s != span;
      }
    }

    lemma RunInRange(min: int, max: int) returns (s: Segment)
      requires Valid() && base == 0x1000 && size == 0x6000 && blocks == map[0x3000 := 0x1000]
      requires (min == 0x4000 && max == 0x7000) || (min == 0x1000 && max == 0x3000)
      ensures s in segs && s.on && s.kind == Free && Fits(s.base, s.size, 0x2000, min, max)
    {
      var a, b := TwoFreeRuns();
      s := if min == 0x4000 then b else a;
    }

    /** The two runs are in the same free list. */
    lemma SameList() returns (a: Segment, b: Segment)
      requires Valid() && base == 0x1000 && size == 0x6000 && blocks == map[0x3000 := 0x1000]
      ensures a in segs && a.on && a.kind == Free && a.base == 0x1000 && a.size == 0x2000
      ensures b in segs && b.on && b.kind == Free && b.base == 0x4000 && b.size == 0x3000
      ensures forall s {:trigger s.kind} :: s in segs && s.on && s.kind == Free ==> s == a || s == b
      ensures |lists| > 13 && lists[13] != [] && (lists[13][0] == a || lists[13][0] == b)
    {
      a, b := TwoFreeRuns();
      assert a.home == Log2(0x2000) == 13;
      assert a.rank >= 0 && lists[13][a.rank] == a;
      var head := lists[13][0];
      assert head.on && head.home == 13 && head.kind == Free;
    }

    /** No place of the lists offers a segment in the range. */
    lemma NotOffered(a: Segment, b: Segment, min: int, max: int, i: int, k: int)
      requires Listed({}) && Homed({}) && 13 <= i < FREELISTS && a in segs && b in segs && lists[13] != []
      requires a.base == 0x1000 && a.size == 0x2000 && b.base == 0x4000 && b.size == 0x3000
      requires (lists[13][0] == a || lists[13][0] == b)
      requires forall s {:trigger s.kind} :: s in segs && s.on && s.kind == Free ==> s == a || s == b
      requires if lists[13][0] == a then min == 0x4000 && max == 0x7000 else min == 0x1000 && max == 0x3000
      ensures !Offer(i, k, 0x2000, min, max)
    {
      if 0 <= k < |lists[i]| {
        var s := lists[i][k];
        assert s.home == i && s.kind == Free && s.on && (s == a || s == b);
        assert Log2(0x2000) == 13 && Log2(0x3000) == 13;
      }
    }

    /** A request with a range can miss a free segment that has room: the head of its list is large enough and lies
        outside the range, so the rest of the list is not searched. */
    lemma RangedCanMiss(min: int, max: int) returns (s: Segment)
      requires Valid() && base == 0x1000 && size == 0x6000 && blocks == map[0x3000 := 0x1000]
      requires |lists| > 13 && lists[13] != [] && lists[13][0] in segs
      requires if lists[13][0].base == 0x1000 then min == 0x4000 && max == 0x7000 else min == 0x1000 && max == 0x3000
      ensures NoOffer(Log2(0x2000), 0x2000, min, max)
      ensures s in segs && s.on && s.kind == Free && Fits(s.base, s.size, 0x2000, min, max)
    {
      var a, b := SameList();
      s := RunInRange(min, max);
      forall i, k | 13 <= i < FREELISTS ensures !Offer(i, k, 0x2000, min, max) {
        NotOffered(a, b, min, max, i, k);
      }
      assert Log2(0x2000) == 13;
    }

    /** A fresh arena offers any part of it. */
    lemma FreshOffers(wanted: int, min: int, max: int)
      requires Valid() && blocks == map[] && 0 < wanted && base <= min && min + wanted <= max <= base + size
      ensures !NoOffer(Log2(wanted), wanted, min, max)
    {
      NothingLive();
      ViewAt(1, 1);
      var s := chain[1];
      assert s.on && s.kind != Span && s.home >= 0;
      assert Fits(s.base, s.size, wanted, min, max) && !Shadowed(s, wanted, min, max) by {
        OnlySegment(s);
      }
      SearchIsExact(wanted, min, max);
    }

    /** A fresh arena has room for anything up to its size. */
    lemma FreshRoom(wanted: int)
      requires Valid() && blocks == map[] && wanted <= size
      ensures !NoRoom(wanted)
    {
      NothingLive();
      ViewAt(1, 1);
      assert chain[1].on && chain[1].size >= wanted;
    }

    /** The only segment is the only one in the free lists. */
    lemma OnlySegment(s: Segment)
      requires Valid() && |chain| == 2 && s == chain[1] && s.kind == Free
      ensures s.home >= 0 && s.home < |lists| && lists[s.home] != [] && lists[s.home][0] == s
    {
      assert s.on && s.rank >= 0 && lists[s.home][s.rank] == s;
      var head := lists[s.home][0];
      assert head.on && chain[head.pos] == head && head != span;
    }

    // ---------------------------------------------------------------- where a request is served

    /** If a place can be used, there is a first one. */
    lemma {:induction false} FirstPlace(i: int, k: int, index: int, size: int, min: int, max: int, d: int)
      returns (x: int, y: int)
      requires index <= i < FREELISTS && Serves(i, k, size, min, max, d)
      ensures ServedFirst(x, y, index, size, min, max, d)
      decreases i, k
    {
      if u, v :| index <= u <= i && (u < i || v < k) && Serves(u, v, size, min, max, d) {
        x, y := FirstPlace(u, v, index, size, min, max, d);
      } else {
        x, y := i, k;
      }
    }

    /** A request is served exactly when some place can be used. */
    lemma ChoiceExactly(size: int, min: int, max: int)
      requires Valid() && size > 0
      ensures Choice(size, min, max) == 0 <==> NothingServes(Log2(size), size, min, max, Descriptors())
    {
      var d := Descriptors();
      if x, y :| Log2(size) <= x < FREELISTS && Serves(x, y, size, min, max, d) {
        var i, k := FirstPlace(x, y, Log2(size), size, min, max, d);
        OfferedIsFree(i, k, size, min, max);
        ChosenIs(i, k, size, min, max, d);
      } else {
        NoneChosen(size, min, max, d);
      }
    }

    /** With two descriptors every segment that is offered can be used, and with fewer some of them. */
    lemma ChoiceOfOffers(size: int, min: int, max: int)
      requires Valid() && size > 0
      ensures Choice(size, min, max) == 0 ==> NoOffer(Log2(size), size, min, max) || Descriptors() < 2
      ensures Choice(size, min, max) != 0 ==> !NoOffer(Log2(size), size, min, max)
    {
      ChoiceExactly(size, min, max);
      if Choice(size, min, max) == 0 && Descriptors() >= 2 {
        forall x, y | Log2(size) <= x < FREELISTS ensures !Offer(x, y, size, min, max) {
          assert !Serves(x, y, size, min, max, Descriptors());
        }
      }
    }

    /** The free segment `s` covers the `wanted` bytes from `at` on, the search gets to it, and there are
        descriptors. */
    ghost predicate ServesAt(s: Segment, wanted: int, at: int)
      reads this`lists, this`freeSegs, this`taken, segs, s
    {
      && s in segs && s.on && s.kind == Free && s.base <= at && at + wanted <= s.base + s.size
      && 0 <= s.home < |lists| && lists[s.home] != [] && lists[s.home][0] in segs
      && (lists[s.home][0].size >= wanted ==> lists[s.home][0] == s) && Needs(s, wanted, at) <= Descriptors()
    }

    ghost predicate FixedServed(wanted: int, at: int)
      reads this`lists, this`freeSegs, this`taken, segs
    {
      exists s {:trigger s.kind} :: s in segs && ServesAt(s, wanted, at)
    }

    lemma PlaceOf(s: Segment, wanted: int, at: int, max: int, d: int)
      requires Listed({}) && Homed({}) && wanted > 0 && max == at + wanted && d == Descriptors()
      requires ServesAt(s, wanted, at)
      ensures Log2(wanted) <= s.home < FREELISTS && Serves(s.home, s.rank, wanted, at, max, d)
    {
      assert s.rank >= 0 && lists[s.home][s.rank] == s;
      Log2Monotone(wanted, s.size);
    }

    lemma ServedAt(s: Segment, wanted: int, at: int, max: int, d: int)
      requires Listed({}) && Homed({}) && wanted > 0 && max == at + wanted && d == Descriptors()
      requires ServesAt(s, wanted, at)
      ensures Chosen(wanted, at, max, d) == at
    {
      PlaceOf(s, wanted, at, max, d);
      var i, k := FirstPlace(s.home, s.rank, Log2(wanted), wanted, at, max, d);
      ChosenIs(i, k, wanted, at, max, d);
    }

    lemma PlaceServes(i: int, k: int, wanted: int, at: int, max: int, d: int)
      requires Listed({}) && Homed({}) && wanted > 0 && max == at + wanted && d == Descriptors()
      requires 0 <= i < FREELISTS && Serves(i, k, wanted, at, max, d)
      ensures FixedServed(wanted, at)
    {
      OfferedIsFree(i, k, wanted, at, max);
      assert lists[i][k].kind == Free && ServesAt(lists[i][k], wanted, at);
    }

    lemma NotServed(wanted: int, at: int, max: int, d: int)
      requires Listed({}) && Homed({}) && wanted > 0 && max == at + wanted && d == Descriptors()
      requires !FixedServed(wanted, at)
      ensures Chosen(wanted, at, max, d) == 0
    {
      forall x, y {:trigger Serves(x, y, wanted, at, max, d)} | Log2(wanted) <= x < FREELISTS
        ensures !Serves(x, y, wanted, at, max, d)
      {
        if Serves(x, y, wanted, at, max, d) {
          PlaceServes(x, y, wanted, at, max, d);
        }
      }
      NoneChosen(wanted, at, max, d);
    }

    lemma FixedChosen(wanted: int, at: int, max: int, d: int)
      requires Listed({}) && Homed({}) && wanted > 0 && max == at + wanted && d == Descriptors()
      ensures FixedServed(wanted, at) ==> Chosen(wanted, at, max, d) == at
      ensures !FixedServed(wanted, at) ==> Chosen(wanted, at, max, d) == 0
    {
      if s :| s in segs && ServesAt(s, wanted, at) {
        ServedAt(s, wanted, at, max, d);
      } else {
        NotServed(wanted, at, max, d);
      }
    }

    /** A request for the bytes from `at` on is served there, or not at all: exactly when the free segment that covers
        them is the head of its list or the head is too small, and there are descriptors for it. */
    lemma FixedExactly(wanted: int, at: int)
      requires Valid() && wanted > 0
      ensures Choice(wanted, at, at + wanted) == if FixedServed(wanted, at) then at else 0
    {
      FixedChosen(wanted, at, at + wanted, Descriptors());
    }

    /** A free segment covers the `wanted` bytes from `at` on. */
    ghost predicate Covered(wanted: int, at: int)
      reads segs
    {
      exists s {:trigger s.kind} ::
        s in segs && s.on && s.kind == Free && s.base <= at && at + wanted <= s.base + s.size
    }

    /** They lie inside the arena, and no live block has one of them. */
    ghost predicate Unused(wanted: int, at: int)
      reads this`blocks
    {
      && base <= at && at + wanted <= base + size
      && (forall b {:trigger blocks[b]} :: b in blocks ==> b + blocks[b] <= at || at + wanted <= b)
    }

    lemma CoveredIsUnused(s: Segment, wanted: int, at: int)
      requires Valid() && s in segs && s.on && s.kind == Free && s.base <= at && at + wanted <= s.base + s.size
      ensures Unused(wanted, at)
    {
      ViewFacts();
      assert chain[s.pos] == s && s.pos >= 1;
      ViewAt(1, s.pos);
      FreeApartFromLive(View(), base, base + size, s.pos - 1);
    }

    lemma UnusedIsCovered(wanted: int, at: int, e: seq<Extent>)
      requires Valid() && wanted > 0 && Unused(wanted, at)
      requires e == View() && Tiles(e, base, base + size) && Coalesced(e) && Live(e) == blocks
      ensures Covered(wanted, at)
    {
      var j := CoveringFree(e, base, base + size, at, wanted, blocks);
      ViewAt(1, 1);
      ViewAt(1, j + 1);
      var s := chain[j + 1];
      assert s in segs && s.on && s.kind != Span;
    }

    /** A free segment covers the bytes exactly when they lie inside the arena and no live block has one of them. */
    lemma CoveredExactly(wanted: int, at: int)
      requires Valid() && wanted > 0
      ensures Covered(wanted, at) <==> Unused(wanted, at)
    {
      if Covered(wanted, at) {
        var s :| s in segs && s.on && s.kind == Free && s.base <= at && at + wanted <= s.base + s.size;
        CoveredIsUnused(s, wanted, at);
      }
      if Unused(wanted, at) {
        ViewFacts();
        UnusedIsCovered(wanted, at, View());
      }
    }

    lemma OnlyPlace(s: Segment, wanted: int)
      requires Listed({}) && Homed({}) && s in segs && s.on && s.kind == Free && 0 < wanted <= s.size
      requires forall t {:trigger t.kind} :: t in segs && t.on && t.kind == Free ==> t == s
      requires Fits(s.base, s.size, wanted, 0, U64 - 1)
      ensures Log2(wanted) <= s.home < FREELISTS && Offer(s.home, s.rank, wanted, 0, U64 - 1)
      ensures lists[s.home][s.rank] == s
    {
      assert s.home >= 0 && s.rank >= 0 && lists[s.home][s.rank] == s;
      Log2Monotone(wanted, s.size);
      var head := lists[s.home][0];
      assert head.on && head.home == s.home;
    }

    /** The only free segment serves what fits into it, if there are descriptors. */
    lemma OnlyServed(s: Segment, wanted: int)
      requires Valid() && s in segs && s.on && s.kind == Free && 0 < wanted <= s.size
      requires forall t {:trigger t.kind} :: t in segs && t.on && t.kind == Free ==> t == s
      requires s.size == wanted || Descriptors() >= 1
      ensures Choice(wanted, 0, U64 - 1) == s.base
    {
      var d := Descriptors();
      FitsAnywhere(s, wanted);
      OnlyPlace(s, wanted);
      var i, k := FirstPlace(s.home, s.rank, Log2(wanted), wanted, 0, U64 - 1, d);
      FoundFacts(i, k, wanted, 0, U64 - 1, d);
    }

    /** A fresh arena serves a request at its base. */
    lemma FreshServed(wanted: int)
      requires Valid() && blocks == map[] && Descriptors() >= 1 && 0 < wanted <= size
      ensures Choice(wanted, 0, U64 - 1) == base
    {
      NothingLive();
      ViewAt(1, 1);
      var s := chain[1];
      assert s.on && s.kind != Span;
      forall t {:trigger t.kind} | t in segs && t.on && t.kind == Free ensures t == s {
        assert chain[t.pos] == t && t != span;
      }
      OnlyServed(s, wanted);
    }

    /** What is left behind a block at the base. */
    lemma OneFreeRun(k: int) returns (s: Segment)
      requires Valid() && 0 < k < size && blocks == map[base := k]
      ensures s in segs && s.on && s.kind == Free && s.base == base + k && s.size == size - k
      ensures forall t {:trigger t.kind} :: t in segs && t.on && t.kind == Free ==> t == s
    {
      var e := [Extent(base, k, true), Extent(base + k, size - k, false)];
      ViewFacts();
      assert Tiles(e[1..][1..], base + size, base + size) && Tiles(e[1..], base + k, base + size);
      assert Live(e[1..][1..]) == map[] && Live(e) == map[base := k];
      Canonical(View(), e, base, base + size);
      ViewAt(1, 1);
      ViewAt(1, 2);
      s := chain[2];
      assert s.on && s.kind != Span;
      forall t {:trigger t.kind} | t in segs && t.on && t.kind == Free ensures t == s {
        assert chain[t.pos] == t && t != span;
      }
    }

    /** It is handed out as a whole, without a descriptor. */
    lemma LastServed(k: int)
      requires Valid() && 0 < k < size && blocks == map[base := k]
      ensures Choice(size - k, 0, U64 - 1) == base + k
    {
      var s := OneFreeRun(k);
      OnlyServed(s, size - k);
    }

    /** Looks for a free segment with room for `wanted` bytes inside [min, max) and makes a block of it. */
    method Take(wanted: int, min: int, max: int) returns (addr: int)
      requires Valid() && wanted > 0
      modifies this`lists, this`live, this`blocks, this`chain, this`freeSegs, this`taken, segs
      ensures Valid() && addr == old(Choice(wanted, min, max))
      ensures addr != 0 ==>
        min <= addr && addr + wanted <= max && addr !in old(blocks) && blocks == old(blocks)[addr := wanted]
      ensures addr != 0 ==> (min == 0 ==> Abuts(addr, base, old(blocks)))
      ensures addr == 0 ==> blocks == old(blocks) && chain == old(chain) && lists == old(lists)
      ensures addr == 0 ==>
        forall s {:trigger s.base} {:trigger s.size} {:trigger s.kind} :: s in segs ==>
          s.base == old(s.base) && s.size == old(s.size) && s.kind == old(s.kind)
    {
      ghost var d := Descriptors();
      var i, found, alloc, front, held := Search(wanted, min, max, d);
      assert Chosen(wanted, min, max, d) == old(Choice(wanted, min, max));
      if found == null {
        return 0;
      }
      addr := Commit(i, found, wanted, min, alloc, front, held);
    }

    /** Where `xalloc` serves a request; 0 if it does not. */
    ghost function Served(bytes: int, min: int, limit: int): int
      reads this`lists, this`freeSegs, this`taken, segs`base, segs`size
      requires quantum > 0
    {
      var size := AlignUp(bytes, quantum);
      if size <= 0 then 0 else Choice(size, min, Limit(size, min, limit))
    }

    lemma ServedFixed(bytes: int, min: int)
      requires Valid() && 0 < min < U64 && 0 < AlignUp(bytes, quantum) < U64
      ensures var size := AlignUp(bytes, quantum);
        Served(bytes, min, min) == if min + size < U64 && FixedServed(size, min) then min else 0
    {
      var size := AlignUp(bytes, quantum);
      LimitOfFixed(size, min);
      FixedExactly(size, min);
      if min + size >= U64 {
        WrappedIsEmpty(size, min, min + size - U64);
      }
    }

    /** What the three ways to give a range mean. */
    lemma ServedFacts(bytes: int, min: int, limit: int)
      requires Valid() && 0 <= min < U64 && 0 <= limit < U64 && 0 < AlignUp(bytes, quantum) < U64
      ensures var size := AlignUp(bytes, quantum); var max := Limit(size, min, limit);
        && (Served(bytes, min, limit) == 0 ==> NoOffer(Log2(size), size, min, max) || Descriptors() < 2)
        && (Served(bytes, min, limit) != 0 ==> !NoOffer(Log2(size), size, min, max))
        && (Served(bytes, min, limit) == 0 && min == 0 && limit == 0 ==> NoRoom(size) || Descriptors() < 2)
    {
      var size := AlignUp(bytes, quantum);
      ChoiceOfOffers(size, min, Limit(size, min, limit));
      UnrangedIsComplete(size);
    }

    /** A range that ends before it begins serves nothing. */
    lemma WrappedIsEmpty(size: int, min: int, max: int)
      requires Valid() && size > 0 && max < min
      ensures Choice(size, min, max) == 0
    {
      NoneChosen(size, min, max, Descriptors());
    }

    /** Allocates `bytes`, rounded up to the quantum: anywhere, inside [min, limit), or at `min` if that is the limit
        too. */
    method Xalloc(bytes: int, min: int, limit: int) returns (addr: int)
      requires Valid() && 0 <= bytes < U64 && 0 <= min < U64 && 0 <= limit < U64
      modifies this`lists, this`live, this`blocks, this`chain, this`freeSegs, this`taken, segs
      ensures Valid() && addr == old(Served(bytes, min, limit))
      ensures var size := AlignUp(bytes, quantum); addr != 0 ==>
        && size > 0 && min <= addr && addr !in old(blocks) && blocks == old(blocks)[addr := size]
        && base <= addr && addr + size <= base + this.size && (min == 0 ==> Abuts(addr, base, old(blocks)))
        && (limit != 0 && limit != min ==> addr + size <= limit) && (limit == min && min != 0 ==> addr == min)
        && (limit == min && min != 0 ==> min + size < U64 && old(FixedServed(size, min)))
        && !old(NoOffer(Log2(size), size, min, Limit(size, min, limit)))
        && (forall b :: b in old(blocks) ==> b + old(blocks)[b] <= addr || addr + size <= b)
      ensures addr == 0 ==> blocks == old(blocks) && chain == old(chain) && lists == old(lists)
      ensures addr == 0 ==> forall s {:trigger s.base} {:trigger s.size} {:trigger s.kind} :: s in segs ==>
        s.base == old(s.base) && s.size == old(s.size) && s.kind == old(s.kind)
      ensures var size := AlignUp(bytes, quantum); addr == 0 && size > 0 ==>
        && (old(NoOffer(Log2(size), size, min, Limit(size, min, limit))) || old(Descriptors()) < 2)
        && (min == 0 && limit == 0 ==> old(NoRoom(size)) || old(Descriptors()) < 2)
        && (limit == min && min != 0 && min + size < U64 ==> !old(FixedServed(size, min)))
    {
      var size := AlignUp(bytes, quantum);
      if size <= 0 {
        return 0;
      }
      AlignUpWord(bytes, quantum);
      ServedFacts(bytes, min, limit);
      if limit == min && min != 0 {
        ServedFixed(bytes, min);
      }
      addr := Take(size, min, Limit(size, min, limit));
      if addr != 0 {
        NewBlockApart(old(blocks), addr, size);
      }
    }

    /** `xalloc` with the same address twice. */
    method RequestFixed(bytes: int, at: int) returns (addr: int)
      requires Valid() && 0 <= bytes < U64 && 0 < at && at + AlignUp(bytes, quantum) < U64
      modifies this`lists, this`live, this`blocks, this`chain, this`freeSegs, this`taken, segs
      ensures var size := AlignUp(bytes, quantum);
        && Valid() && addr == (if size > 0 && old(FixedServed(size, at)) then at else 0)
        && blocks == if addr == 0 then old(blocks) else old(blocks)[at := size]
    {
      AlignUpWord(bytes, quantum);
      addr := Xalloc(bytes, at, at);
    }

    /** The arena is one free segment, which is in no list yet. */
    ghost predicate Initial(seg: Segment)
      reads this, segs, span, seg
    {
      && base > 0 && size > 0 && base + size < U64 && quantum > 0 && Supplied() && |supply| > 0
      && span in segs && seg in segs && span.page == 0 && span.place == 72 && seg.page == 0 && seg.place == 71
      && taken == 1 && freeSegs == supply[0][1..71] && chain == [span, seg] && live == map[] && blocks == map[]
      && |lists| == LISTS && (forall i :: 0 <= i < LISTS ==> lists[i] == [])
      && span.kind == Span && span.next == seg && span.pos == 0
      && seg.base == base && seg.size == size && seg.kind == Free && seg.prev == span && seg.next == null
      && seg.pos == 1
      && (forall s {:trigger s.on} :: s in segs ==> (s.on <==> s == seg))
      && (forall s {:trigger s.slot} :: s in segs ==> s.slot == s.place - 1)
    }

    lemma InitialBooks(seg: Segment)
      requires Initial(seg)
      ensures Chained() && Kinds() && Tiled() && Apart({seg}) && Listed({seg}) && Homed({seg}) && Hashed({seg})
      ensures Owned({seg})
    {
    }

    lemma InitialSpare(seg: Segment)
      requires Initial(seg)
      ensures Spare({})
    {
      forall s | s in segs && s.page < taken && s.place >= 1 && !s.on && s != span
        ensures 0 <= s.slot < |freeSegs| && freeSegs[s.slot] == s
      {
        assert supply[0][s.place] == s && supply[0][71] == seg && supply[0][72] == span;
      }
    }

    method DescribeArena(seg: Segment)
      requires span in segs && seg in segs && span != seg
      modifies segs
      ensures span.kind == Span && span.next == seg && span.pos == 0
      ensures seg.base == base && seg.size == size && seg.kind == Free && seg.prev == span && seg.next == null
      ensures seg.pos == 1
      ensures forall s {:trigger s.on} :: s in segs ==> (s.on <==> s == seg || old(s.on))
      ensures forall s {:trigger s.slot} :: s in segs ==> s.slot == s.place - 1
    {
      span.base, span.size, span.kind, span.prev, span.next, span.pos := base, size, Span, null, seg, 0;
      seg.base, seg.size, seg.kind, seg.prev, seg.next, seg.pos, seg.on := base, size, Free, span, null, 1, true;
      forall s | s in segs { s.slot := s.place - 1; }
    }

    method Enlist(seg: Segment)
      requires Initial(seg)
      modifies this`lists, this`live, this`blocks, segs
      ensures Valid() && blocks == map[] && Descriptors() == old(Descriptors())
    {
      InitialBooks(seg);
      InitialSpare(seg);
      FreelistInsertNoMerge(seg, {seg}, {});
      assert {seg} - {seg} == {};
    }

    /** `init`: the first page of descriptors is handed out; two of its descriptors describe the span and the arena as
        one free segment. */
    constructor (base: int, size: int, quantum: int, supply: seq<seq<Segment>>, ghost segs: set<Segment>)
      requires base > 0 && size > 0 && base + size < U64 && exists k: nat :: quantum == Pow2(k)
      requires |supply| > 0 && Pages(supply, segs) && forall s {:trigger s.on} :: s in segs ==> !s.on
      modifies segs
      ensures Valid() && blocks == map[] && this.base == base && this.size == size && this.quantum == quantum
      ensures this.supply == supply && this.segs == segs && Descriptors() == 70 + 72 * (|supply| - 1)
    {
      this.base, this.size, this.quantum, this.supply, this.segs := base, size, quantum, supply, segs;
      span, taken := supply[0][72], 1;
      freeSegs := supply[0][1..71];
      lists := seq(LISTS, i => []);
      chain, live, blocks := [supply[0][72], supply[0][71]], map[], map[];
      new;
      var seg := supply[0][71];
      assert seg.place == 71 && supply[0][72].place == 72;
      DescribeArena(seg);
      Enlist(seg);
    }

    method AllocateThird() returns (addr: int)
      requires Valid() && base == 0x1000 && size == 0x6000 && quantum == 0x1000 && blocks == map[] && Descriptors() >= 2
      modifies this`lists, this`live, this`blocks, this`chain, this`freeSegs, this`taken, segs
      ensures Valid() && addr == 0x3000 && blocks == map[0x3000 := 0x1000]
    {
      FreshOffers(0x1000, 0x3000, 0x4000);
      AlignUpExact(1, quantum);
      addr := Xalloc(0x1000, 0x3000, 0x4000);
    }

    method RequestTwo(min: int, max: int) returns (missed: int)
      requires Valid() && base == 0x1000 && size == 0x6000 && quantum == 0x1000 && blocks == map[0x3000 := 0x1000]
      requires 0 < min < max < U64 && NoOffer(Log2(0x2000), 0x2000, min, max)
      modifies this`lists, this`live, this`blocks, this`chain, this`freeSegs, this`taken, segs
      ensures Valid() && blocks == map[0x3000 := 0x1000] && missed == 0
    {
      AlignUpExact(2, quantum);
      missed := Xalloc(0x2000, min, max);
    }

    /** The range of the run that is not at the head of the list. */
    method RangeOfOther() returns (min: int, max: int)
      requires Valid() && base == 0x1000 && size == 0x6000 && blocks == map[0x3000 := 0x1000]
      ensures (min == 0x4000 && max == 0x7000) || (min == 0x1000 && max == 0x3000)
      ensures NoOffer(Log2(0x2000), 0x2000, min, max)
    {
      ghost var a, b := SameList();
      min, max := 0x1000, 0x3000;
      if lists[13][0].base == 0x1000 {
        min, max := 0x4000, 0x7000;
      }
      ghost var s := RangedCanMiss(min, max);
    }

    method MissOther() returns (min: int, max: int, missed: int, ghost s: Segment)
      requires Valid() && base == 0x1000 && size == 0x6000 && quantum == 0x1000 && blocks == map[0x3000 := 0x1000]
      modifies this`lists, this`live, this`blocks, this`chain, this`freeSegs, this`taken, segs
      ensures Valid() && blocks == map[0x3000 := 0x1000]
      ensures missed == 0 && s in segs && s.on && s.kind == Free && Fits(s.base, s.size, 0x2000, min, max)
    {
      min, max := RangeOfOther();
      missed := RequestTwo(min, max);
      s := RunInRange(min, max);
    }

    /** On a fresh arena of six pages the third is allocated; then a request for two pages fails although there is room
        for them inside the range. */
    method RangedMiss() returns (addr: int, min: int, max: int, missed: int, ghost s: Segment)
      requires Valid() && base == 0x1000 && size == 0x6000 && quantum == 0x1000 && blocks == map[] && Descriptors() >= 2
      modifies this`lists, this`live, this`blocks, this`chain, this`freeSegs, this`taken, segs
      ensures Valid() && addr == 0x3000 && blocks == map[0x3000 := 0x1000]
      ensures missed == 0 && s in segs && s.on && s.kind == Free && Fits(s.base, s.size, 0x2000, min, max)
    {
      addr := AllocateThird();
      min, max, missed, s := MissOther();
    }

    lemma OtherNotServed(at: int)
      requires Valid() && base == 0x1000 && size == 0x6000 && blocks == map[0x3000 := 0x1000]
      requires |lists| > 13 && lists[13] != [] && lists[13][0] in segs
      requires at == if lists[13][0].base == 0x1000 then 0x4000 else 0x1000
      ensures !FixedServed(0x2000, at) && Unused(0x2000, at)
    {
      var a, b := SameList();
      assert a.home == Log2(0x2000) == 13 && b.home == Log2(0x3000) == 13;
      if s :| s in segs && ServesAt(s, 0x2000, at) {
        assert false;
      }
    }

    method BaseOfOther() returns (at: int)
      requires Valid() && base == 0x1000 && size == 0x6000 && blocks == map[0x3000 := 0x1000]
      ensures 0 < at < 0x5000 && !FixedServed(0x2000, at) && Unused(0x2000, at)
    {
      ghost var a, b := SameList();
      at := if lists[13][0].base == 0x1000 then 0x4000 else 0x1000;
      OtherNotServed(at);
    }

    method RequestAt(at: int) returns (missed: int)
      requires Valid() && quantum == 0x1000 && 0 < at < 0x5000 && !FixedServed(0x2000, at)
      modifies this`lists, this`live, this`blocks, this`chain, this`freeSegs, this`taken, segs
      ensures Valid() && missed == 0 && blocks == old(blocks)
    {
      AlignUpExact(2, quantum);
      assert AlignUp(0x2000, quantum) == 0x2000;
      missed := RequestFixed(0x2000, at);
    }

    /** In the same way a request for two pages at a fixed address fails although no live block has any of them. */
    method FixedMiss() returns (addr: int, at: int, missed: int)
      requires Valid() && base == 0x1000 && size == 0x6000 && quantum == 0x1000 && blocks == map[] && Descriptors() >= 2
      modifies this`lists, this`live, this`blocks, this`chain, this`freeSegs, this`taken, segs
      ensures Valid() && addr == 0x3000 && missed == 0 && blocks == map[0x3000 := 0x1000] && Unused(0x2000, at)
    {
      addr := AllocateThird();
      at := BaseOfOther();
      missed := RequestAt(at);
    }

    /** Such an arena can be had. */
    static method SixPages(supply: seq<seq<Segment>>, ghost segs: set<Segment>) returns (v: VMem)
      requires |supply| > 0 && Pages(supply, segs) && forall s {:trigger s.on} :: s in segs ==> !s.on
      modifies segs
      ensures fresh(v) && v.segs == segs && v.Valid() && v.base == 0x1000 && v.size == 0x6000 && v.quantum == 0x1000
      ensures v.blocks == map[] && v.Descriptors() >= 2
    {
      assert Pow2(12) == 0x1000;
      v := new VMem(0x1000, 0x6000, 0x1000, supply, segs);
    }

    /** The arena is determined by the live blocks. */
    lemma Restored(e: seq<Extent>)
      requires Valid() && Tiles(e, base, base + size) && Coalesced(e) && Live(e) == blocks
      ensures View() == e
    {
      ViewFacts();
      Canonical(View(), e, base, base + size);
    }

    /** Freeing what was just allocated restores the arena. */
    method AllocateAndFree(bytes: int, min: int, limit: int) returns (addr: int)
      requires Valid() && 0 <= bytes < U64 && 0 <= min < U64 && 0 <= limit < U64
      modifies this`lists, this`live, this`blocks, this`chain, this`freeSegs, this`taken, segs
      ensures Valid() && View() == old(View())
    {
      ViewFacts();
      ghost var before, all := View(), blocks;
      addr := Xalloc(bytes, min, limit);
      if addr != 0 {
        Xfree(addr, bytes);
        PutAndTake(all, addr, AlignUp(bytes, quantum));
      }
      Restored(before);
    }

    /** When nothing is live, the arena is one free segment. */
    lemma NothingLive()
      requires Valid() && blocks == map[]
      ensures View() == [Extent(base, size, false)]
    {
      ViewFacts();
      AllFree(View(), base, base + size);
    }

    /** Freeing all live blocks, in any order, leaves one free segment. */
    method FreeAll(order: seq<(int, int)>)
      requires Valid() && blocks.Keys == Firsts(order, |order|)
      requires Releases(order, blocks)
      modifies this`lists, this`live, this`blocks, this`chain, this`freeSegs, segs
      ensures Valid() && blocks == map[] && View() == [Extent(base, size, false)]
    {
      ghost var all := blocks;
      for i := 0 to |order|
        invariant Valid() && blocks == all - Firsts(order, i)
      {
        Xfree(order[i].0, order[i].1);
        FirstsStep(order, i, all);
      }
      NothingLive();
    }

    /** The calls `xfree(order[j].0, order[j].1)` name live blocks by their sizes. */
    ghost predicate Releases(order: seq<(int, int)>, all: map<int, int>)
      requires quantum > 0
    {
      forall j {:trigger order[j]} :: 0 <= j < |order| ==>
        0 <= order[j].0 && 0 <= order[j].1 < U64 && order[j].0 in all && all[order[j].0] == AlignUp(order[j].1, quantum)
    }
  }
}
