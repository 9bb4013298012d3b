/** When blocks of the buddy page allocator can overlap (src/mem/pmalloc.cpp). Blocks are carved by address and buddies
    are looked for by page number, so that a page inside a block can be taken for a block. */
module BuddyOverlap {
  import opened Arith
  import opened Buddy
  import opened Seqs

  /** `p` starts a block of order `k`: it is in the list of that order, or was handed out with it. */
  predicate IsBlock(m: Memory, p: int, k: int)
  {
    (0 <= k < |m.lists| && p in m.lists[k]) || (0 <= p < |m.pages| && m.pages[p].used && m.pages[p].listIndex == k)
  }

  /** No two blocks have a page in common. */
  ghost predicate Apart(m: Memory)
  {
    forall p, k, q, j {:trigger IsBlock(m, p, k), IsBlock(m, q, j)} ::
      IsBlock(m, p, k) && IsBlock(m, q, j) && p <= q ==>
      0 <= k && if p == q then k == j else p + Pow2(k) <= q
  }

  /** No two blocks that were handed out have a page in common. */
  ghost predicate HandedApart(m: Memory)
  {
    forall p, q {:trigger m.pages[p], m.pages[q]} :: 0 <= p < q < |m.pages| && m.pages[p].used && m.pages[q].used ==>
      0 <= m.pages[p].listIndex && p + Pow2(m.pages[p].listIndex) <= q
  }

  lemma ApartIsHandedApart(m: Memory)
    requires Apart(m)
    ensures HandedApart(m)
  {
    forall p, q {:trigger m.pages[p], m.pages[q]} | 0 <= p < q < |m.pages| && m.pages[p].used && m.pages[q].used
      ensures 0 <= m.pages[p].listIndex && p + Pow2(m.pages[p].listIndex) <= q
    {
      assert IsBlock(m, p, m.pages[p].listIndex) && IsBlock(m, q, m.pages[q].listIndex);
    }
  }

  /** How far the first page of a region of `count` pages must be aligned: beyond every unit of which there are seven,
      as long as four units are a block. */
  function Enough(count: nat): (r: nat)
    ensures r <= 12
  {
    if count < 7 then 0 else if Log2(count / 7) < 12 then Log2(count / 7) + 1 else 12
  }

  lemma EnoughUnits(count: nat, v: nat)
    requires v <= 11
    ensures v < Enough(count) <==> 7 * Pow2(v) <= count
  {
    if count >= 7 {
      var q := count / 7;
      Log2Bounds(q);
      if v <= Log2(q) {
        Pow2Monotone(v, Log2(q));
      } else {
        Pow2Monotone(Log2(q) + 1, v);
      }
    }
  }

  /** The units that the first page is aligned to. */
  lemma {:induction false} LowestUnit(first: int, r: nat) returns (v: nat)
    requires !Multiple(first, r)
    ensures v < r && Multiple(first, v) && !Multiple(first, v + 1)
    decreases r
  {
    v := r - 1;
    if !Multiple(first, v) {
      v := LowestUnit(first, v);
    }
  }

  // ---------------------------------------------------------------- no overlap

  lemma BlockIsHead(m: Memory, head: seq<int>, order: seq<nat>, live: map<int, int>, p: int, k: int)
    requires Rough(m.pages, m.lists, head, order, live, -1) && IsBlock(m, p, k)
    ensures 0 <= p < |head| && head[p] == p && order[p] == k
  {
  }

  /** Blocks that tile the region are apart. */
  lemma RoughIsApart(m: Memory, head: seq<int>, order: seq<nat>, live: map<int, int>)
    requires Rough(m.pages, m.lists, head, order, live, -1)
    ensures Apart(m)
  {
    forall p, k, q, j {:trigger IsBlock(m, p, k), IsBlock(m, q, j)} | IsBlock(m, p, k) && IsBlock(m, q, j) && p <= q
      ensures 0 <= k && if p == q then k == j else p + Pow2(k) <= q
    {
      BlockIsHead(m, head, order, live, p, k);
      BlockIsHead(m, head, order, live, q, j);
      assert order[p] == k && head[q] == q;
    }
  }

  /** If the first page is aligned far enough, no two blocks overlap in any run. */
  lemma StaysApart(first: int, count: nat, calls: seq<Call>)
    requires Multiple(first, Enough(count))
    ensures Apart(Run(first, count, calls))
  {
    var head, order, live;
    if Multiple(first, Top(count)) {
      head, order, live := RunBooks(first, count, calls);
    } else {
      var v := LowestUnit(first, Top(count));
      if v < Enough(count) {
        MultipleDown(first, Enough(count), v + 1);
      }
      head, order, live := RunNearly(first, count, v, calls);
    }
    RoughIsApart(Run(first, count, calls), head, order, live);
  }

  /** With fewer than seven units, or if two of them are the largest block, blocks tile the region in every run. */
  lemma RunNearly(first: int, count: nat, v: nat, calls: seq<Call>)
    returns (head: seq<int>, order: seq<nat>, live: map<int, int>)
    requires v <= 12 && Enough(count) <= v && Multiple(first, v) && !Multiple(first, v + 1)
    ensures var m := Run(first, count, calls); Rough(m.pages, m.lists, head, order, live, -1)
  {
    if v <= 11 {
      EnoughUnits(count, v);
    }
    head, order := CarveTiles(first, count);
    CarveNearly(first, count, v, Carve(first, count).pages, head, order);
    head, order, live := RunRough(Nearly(v), first, count, calls, head, order);
  }

  // ---------------------------------------------------------------- overlap

  /** Of two odd numbers of units the sum is even. */
  lemma OddPlusOdd(x: int, y: int, v: nat)
    requires Multiple(x, v) && !Multiple(x, v + 1) && Multiple(y, v) && !Multiple(y, v + 1)
    ensures Multiple(x + y, v + 1)
  {
    var a := Quotient(x, v);
    var b := Quotient(y, v);
    UnitParity(a, v);
    UnitParity(b, v);
    UnitParity(a + b, v);
    SumOfProducts(a, b, Pow2(v));
  }

  lemma SumOfProducts(a: int, b: int, u: int)
    ensures a * u + b * u == (a + b) * u
  {
  }

  /** The buddy of a block of more than one unit at an odd unit lies before it. */
  lemma OddBuddy(c: int, v: nat, k: nat)
    requires c % 2 == 1 && v < k
    ensures BuddyOf(c * Pow2(v), k) == c * Pow2(v) - Pow2(k)
  {
    UnitParity(c, v);
    if Multiple(c * Pow2(v), k + 1) {
      MultipleDown(c * Pow2(v), k + 1, v + 1);
    }
  }

  /** The three pairs of units at 1, 3 and 5 are handed out, and no list from their order on has a block. */
  ghost predicate PairsTaken(m: Memory, v: nat)
  {
    var u := Pow2(v);
    && 5 * u < |m.pages| && |m.lists| == FREELISTS && NoneFrom(m.lists, v + 1)
    && m.pages[u] == Page(true, false, v + 1) && m.pages[3 * u] == Page(true, false, v + 1)
    && m.pages[5 * u] == Page(true, false, v + 1)
  }

  /** A block of an order from which on the lists are empty is live. */
  lemma NotInLists(m: Memory, head: seq<int>, order: seq<nat>, live: map<int, int>, h: int, k: nat)
    requires Rough(m.pages, m.lists, head, order, live, -1) && NoneFrom(m.lists, k)
    requires 0 <= h < |head| && head[h] == h && k <= order[h]
    ensures h in live
  {
    assert order[h] < FREELISTS;
    assert h !in m.lists[order[h]];
  }

  lemma PairTaken(first: int, m: Memory, head: seq<int>, order: seq<nat>, live: map<int, int>, v: nat, c: int, i: int)
    requires Rough(m.pages, m.lists, head, order, live, -1) && AlignedByAddress(first, v + 1, head, order)
    requires AllOf(live, v + 1) && NoneFrom(m.lists, v + 1) && Multiple(first, v) && !Multiple(first, v + 1)
    requires c % 2 == 1 && i == c * Pow2(v) && 0 <= i && i + Pow2(v + 1) <= |head|
    ensures m.pages[i] == Page(true, false, v + 1)
  {
    OddUnits(v, c);
    OddPlusOdd(first, i, v);
    var h := head[i];
    var k := order[h];
    assert MultipleAt(first, i, v + 1) && k >= v + 1 && MultipleAt(first, h, k);
    NotInLists(m, head, order, live, h, v + 1);
    assert live[h] == k;
    NearMultiples(first + h, first + i, v + 1);
  }

  lemma TakePairs(first: int, count: nat, v: nat)
    requires v <= 11 && Multiple(first, v) && !Multiple(first, v + 1) && 7 * Pow2(v) <= count
    ensures PairsTaken(Run(first, count, Takes(Pow2(v + 1), count + 1)), v)
  {
    var u := Pow2(v);
    var head, order, live := TakeMany(first, count, v + 1, count + 1);
    var m := Run(first, count, Takes(Pow2(v + 1), count + 1));
    BelowCount(live.Keys, count);
    assert |live.Keys| == |live|;
    PairTaken(first, m, head, order, live, v, 1, u);
    PairTaken(first, m, head, order, live, v, 3, 3 * u);
    PairTaken(first, m, head, order, live, v, 5, 5 * u);
  }

  /** The first pair is freed: its buddy would lie before the first page. */
  lemma FreeFirst(m: Memory, v: nat) returns (m': Memory)
    requires v <= 11 && PairsTaken(m, v)
    ensures m' == Step(m, Free(Pow2(v), Pow2(v + 1)))
    ensures m' == Memory(m.pages[Pow2(v) := Page(false, true, v + 1)], m.lists[v + 1 := [Pow2(v)]])
  {
    var u, k := Pow2(v), v + 1;
    SizeOfOrder(k);
    OddBuddy(1, v, k);
    var n := m.(pages := m.pages[u := Page(false, false, k)]);
    assert m.lists[k] == [];
    assert !LooksFree(n, u, k) && m.lists[k] + [u] == [u];
    m' := PushBlock(n, u, k);
    assert InsertFrom(n, u, k) == m';
    assert m'.pages == m.pages[u := Page(false, true, k)];
  }

  /** A block is freed and merged with the one before it, whose buddy would lie before the first page. */
  lemma FreeOnto(m: Memory, p: int, b: int, k: nat) returns (m': Memory)
    requires k + 1 < FREELISTS == |m.lists| && 0 <= b < p < |m.pages| && BuddyOf(p, k) == b && BuddyOf(b, k + 1) < 0
    requires m.pages[p] == Page(true, false, k) && !m.pages[b].used && m.pages[b].listIndex == k
    ensures m' == Step(m, Free(p, Pow2(k))) && |m'.lists| == FREELISTS
    ensures m'.pages == m.pages[p := Page(false, false, k)][b := Page(false, true, k + 1)]
    ensures m'.lists[k + 1] == m.lists[k + 1] + [b]
  {
    SizeOfOrder(k);
    var n := m.(pages := m.pages[p := Page(false, false, k)]);
    assert LooksFree(n, p, k);
    var merged := MergeBlock(n, p, b, k);
    assert merged.pages == n.pages[b := Page(false, false, k + 1)] && merged.lists[k + 1] == m.lists[k + 1];
    InsertFromStep(n, p, k);
    m' := PushBlock(merged, b, k + 1);
    assert InsertFrom(merged, b, k + 1) == m';
  }

  /** The second pair is freed: it is merged with the first. */
  lemma FreeSecond(m: Memory, v: nat) returns (m': Memory)
    requires v <= 11 && 5 * Pow2(v) < |m.pages| && |m.lists| == FREELISTS
    requires m.pages[Pow2(v)] == Page(false, true, v + 1) && m.pages[3 * Pow2(v)] == Page(true, false, v + 1)
    requires m.lists[v + 2] == []
    ensures m' == Step(m, Free(3 * Pow2(v), Pow2(v + 1)))
    ensures m'.pages == m.pages[3 * Pow2(v) := Page(false, false, v + 1)][Pow2(v) := Page(false, true, v + 2)]
    ensures |m'.lists| == FREELISTS && m'.lists[v + 2] == [Pow2(v)]
  {
    OddBuddy(3, v, v + 1);
    OddBuddy(1, v, v + 2);
    assert Pow2(v + 1) == 2 * Pow2(v) && Pow2(v + 2) == 4 * Pow2(v);
    m' := FreeOnto(m, 3 * Pow2(v), Pow2(v), v + 1);
  }

  /** The third pair is freed: the page inside the block at 1 that is its buddy by number is taken for a free block. */
  lemma FreeThird(m: Memory, v: nat) returns (m': Memory)
    requires v <= 11 && 5 * Pow2(v) < |m.pages| && |m.lists| == FREELISTS
    requires m.pages[3 * Pow2(v)] == Page(false, false, v + 1) && m.pages[5 * Pow2(v)] == Page(true, false, v + 1)
    requires m.pages[Pow2(v)] == Page(false, true, v + 2) && m.lists[v + 2] == [Pow2(v)]
    ensures m' == Step(m, Free(5 * Pow2(v), Pow2(v + 1))) && |m'.pages| == |m.pages| && |m'.lists| == FREELISTS
    ensures m'.pages[3 * Pow2(v)] == Page(false, true, v + 2) && m'.pages[Pow2(v)] == Page(false, true, v + 2)
    ensures m'.lists[v + 2] == [Pow2(v), 3 * Pow2(v)]
  {
    OddBuddy(5, v, v + 1);
    OddBuddy(3, v, v + 2);
    assert Pow2(v + 1) == 2 * Pow2(v) && Pow2(v + 2) == 4 * Pow2(v);
    m' := FreeOnto(m, 5 * Pow2(v), 3 * Pow2(v), v + 1);
  }

  /** The last block of a list is handed out. */
  lemma TakeLast(m: Memory, k: nat, rest: seq<int>, p: int) returns (m': Memory)
    requires k < FREELISTS == |m.lists| && m.lists[k] == rest + [p] && 0 <= p < |m.pages| && m.pages[p].listIndex == k
    ensures m' == Step(m, Alloc(Pow2(k)))
    ensures m' == Memory(m.pages[p := Page(true, false, k)], m.lists[k := rest])
  {
    SizeOfOrder(k);
    assert (rest + [p])[..|rest|] == rest;
    m' := PopBlock(m, k, k);
  }

  /** Pairs of units are handed out until none is left, three of them are freed, and two blocks of four units are handed
      out. */
  function OverlapCalls(v: nat, count: nat): seq<Call>
  {
    var u, pair, four := Pow2(v), Pow2(v + 1), Pow2(v + 2);
    Takes(pair, count + 1) + [Free(u, pair)] + [Free(3 * u, pair)] + [Free(5 * u, pair)] + [Alloc(four)] + [Alloc(four)]
  }

  /** Three neighbouring pairs are freed: the blocks of four units at 1 and at 3 are both free, and both are handed
      out. */
  lemma OverlapAfter(m: Memory, v: nat) returns (m': Memory)
    requires v <= 11 && PairsTaken(m, v)
    ensures var u, pair, four := Pow2(v), Pow2(v + 1), Pow2(v + 2);
      m' == Step(Step(Step(Step(Step(m, Free(u, pair)), Free(3 * u, pair)), Free(5 * u, pair)), Alloc(four)),
                 Alloc(four))
    ensures 3 * Pow2(v) < |m'.pages|
    ensures m'.pages[Pow2(v)] == Page(true, false, v + 2) && m'.pages[3 * Pow2(v)] == Page(true, false, v + 2)
  {
    var u := Pow2(v);
    m' := FreeFirst(m, v);
    m' := FreeSecond(m', v);
    m' := FreeThird(m', v);
    assert [u] + [3 * u] == [u, 3 * u];
    m' := TakeLast(m', v + 2, [u], 3 * u);
    assert [] + [u] == [u];
    m' := TakeLast(m', v + 2, [], u);
  }

  lemma {:induction false} RunFive(first: int, count: nat, calls: seq<Call>, a: Call, b: Call, c: Call, d: Call,
                                   e: Call)
    ensures Run(first, count, calls + [a] + [b] + [c] + [d] + [e]) ==
      Step(Step(Step(Step(Step(Run(first, count, calls), a), b), c), d), e)
  {
    RunStep(first, count, calls, a);
    RunStep(first, count, calls + [a], b);
    RunStep(first, count, calls + [a] + [b], c);
    RunStep(first, count, calls + [a] + [b] + [c], d);
    RunStep(first, count, calls + [a] + [b] + [c] + [d], e);
  }

  /** If the first page is aligned to units of which there are at least seven, and to no more, blocks are handed out
      that overlap. */
  lemma UnalignedOverlaps(first: int, count: nat, v: nat)
    requires v <= 11 && Multiple(first, v) && !Multiple(first, v + 1) && 7 * Pow2(v) <= count
    ensures !HandedApart(Run(first, count, OverlapCalls(v, count)))
  {
    var u, pair, four := Pow2(v), Pow2(v + 1), Pow2(v + 2);
    TakePairs(first, count, v);
    var taken := Takes(pair, count + 1);
    var m := OverlapAfter(Run(first, count, taken), v);
    RunFive(first, count, taken, Free(u, pair), Free(3 * u, pair), Free(5 * u, pair), Alloc(four), Alloc(four));
    assert four == 4 * u && m.pages[u].used && m.pages[3 * u].used;
  }

  /** No two blocks, and no two blocks that were handed out, overlap in any run, if and only if the first page is
      aligned beyond every unit of at most 2^11 pages of which the region has seven. */
  lemma OverlapExactly(first: int, count: nat)
    ensures Multiple(first, Enough(count)) <==>
      forall calls {:trigger Run(first, count, calls)} :: Apart(Run(first, count, calls))
    ensures Multiple(first, Enough(count)) <==>
      forall calls {:trigger Run(first, count, calls)} :: HandedApart(Run(first, count, calls))
  {
    if Multiple(first, Enough(count)) {
      forall calls {:trigger Run(first, count, calls)}
        ensures Apart(Run(first, count, calls)) && HandedApart(Run(first, count, calls))
      {
        StaysApart(first, count, calls);
        ApartIsHandedApart(Run(first, count, calls));
      }
    } else {
      var v := LowestUnit(first, Enough(count));
      EnoughUnits(count, v);
      UnalignedOverlaps(first, count, v);
      var m := Run(first, count, OverlapCalls(v, count));
      if Apart(m) {
        ApartIsHandedApart(m);
      }
    }
  }
}
