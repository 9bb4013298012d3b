/** The buddy page allocator (src/mem/pmalloc.cpp), for one region. Pages are numbered from the first free page of the
    region on, as the allocator does when it looks for buddies. */
module Buddy {
  import opened Arith
  import opened Seqs

  const FREELISTS: int := 14

  // ---------------------------------------------------------------- alignment

  /** `p` is a multiple of 2^k: its lowest `k` bits are 0. */
  predicate Multiple(p: int, k: nat)
    decreases k
  {
    k == 0 || (p % 2 == 0 && Multiple(p / 2, k - 1))
  }

  /** The other half of the next larger block. */
  function BuddyOf(p: int, k: nat): int
  {
    if Multiple(p, k + 1) then p + Pow2(k) else p - Pow2(k)
  }

  lemma {:induction false} MultipleDown(p: int, k: nat, j: nat)
    requires j <= k && Multiple(p, k)
    ensures Multiple(p, j)
    decreases k
  {
    if j > 0 {
      MultipleDown(p / 2, k - 1, j - 1);
    }
  }

  /** A multiple of a block size is a multiple of the next one, or so is the one before it. */
  lemma {:induction false} Halves(p: int, k: nat)
    requires 0 <= p && Multiple(p, k)
    ensures !Multiple(p, k + 1) ==> p >= Pow2(k) && Multiple(p - Pow2(k), k + 1)
    ensures Multiple(p, k + 1) ==> !Multiple(p + Pow2(k), k + 1)
    ensures Multiple(p + Pow2(k), k)
    decreases k
  {
    if k > 0 {
      var h, s := p / 2, Pow2(k - 1);
      assert p == 2 * h && Pow2(k) == 2 * s && (p - 2 * s) / 2 == h - s && (p + 2 * s) / 2 == h + s;
      Halves(h, k - 1);
    } else {
      assert forall x :: Multiple(x, 1) <==> x % 2 == 0;
    }
  }

  /** Multiples of 2^k less than 2^k apart are equal. */
  lemma {:induction false} NearMultiples(x: int, y: int, k: nat)
    requires Multiple(x, k) && Multiple(y, k) && x <= y < x + Pow2(k)
    ensures x == y
    decreases k
  {
    if k > 0 {
      NearMultiples(x / 2, y / 2, k - 1);
    }
  }

  /** A multiple of 2^k before another one has room for 2^k before it. */
  lemma {:induction false} RoomFor(y: int, end: int, k: nat)
    requires Multiple(y, k) && Multiple(end, k) && y < end
    ensures y + Pow2(k) <= end
    decreases k
  {
    if k > 0 {
      RoomFor(y / 2, end / 2, k - 1);
    }
  }

  lemma {:induction false} MultipleAdd(a: int, b: int, k: nat)
    requires Multiple(a, k)
    ensures Multiple(a + b, k) <==> Multiple(b, k)
    decreases k
  {
    if k > 0 && b % 2 == 0 {
      MultipleAdd(a / 2, b / 2, k - 1);
    }
  }

  lemma DoubleMod(p: int, s: int)
    requires 0 < s
    ensures p % (2 * s) == 0 <==> p % 2 == 0 && p / 2 % s == 0
  {
    if p % (2 * s) == 0 {
      var q := p / (2 * s);
      assert p == 2 * (q * s);
      MultipleMod(q, s);
    }
    if p % 2 == 0 && p / 2 % s == 0 {
      var q := p / 2 / s;
      assert p / 2 == q * s;
      assert p == q * (2 * s);
      MultipleMod(q, 2 * s);
    }
  }

  lemma {:induction false} MultipleIsMod(p: int, k: nat)
    ensures Multiple(p, k) <==> p % Pow2(k) == 0
    decreases k
  {
    if k > 0 {
      DoubleMod(p, Pow2(k - 1));
      MultipleIsMod(p / 2, k - 1);
    }
  }

  lemma {:induction false} MultipleZero(k: nat)
    ensures Multiple(0, k)
    decreases k
  {
    if k > 0 {
      MultipleZero(k - 1);
    }
  }

  /** A multiple of 2^k is some number of blocks of that size. */
  lemma {:induction false} Quotient(p: int, k: nat) returns (q: int)
    requires Multiple(p, k)
    ensures p == q * Pow2(k)
    decreases k
  {
    q := p;
    if k > 0 {
      q := Quotient(p / 2, k - 1);
      assert p == 2 * (q * Pow2(k - 1)) == q * (2 * Pow2(k - 1));
    }
  }

  lemma {:induction false} UnitMultiple(c: int, v: nat, j: nat)
    ensures Multiple(c * Pow2(v), v + j) <==> Multiple(c, j)
    decreases v
  {
    if v > 0 {
      var half := c * Pow2(v - 1);
      assert c * Pow2(v) == 2 * half;
      UnitMultiple(c, v - 1, j);
    }
  }

  /** The largest order of which a region of `count` pages can have a block. */
  function Top(count: nat): (k: nat)
    ensures k < FREELISTS
  {
    if Log2(count) < FREELISTS then Log2(count) else FREELISTS - 1
  }

  lemma TopFits(count: nat)
    requires count > 0
    ensures Pow2(Top(count)) <= count
  {
    Log2Bounds(count);
    Pow2Monotone(Top(count), Log2(count));
  }

  lemma FitsTop(count: nat, k: nat)
    requires k < FREELISTS && Pow2(k) <= count
    ensures k <= Top(count)
  {
    Log2Bounds(count);
    if k > Log2(count) {
      Pow2Monotone(Log2(count) + 1, k);
    }
  }

  /** Addresses are aligned like page numbers, as far as the first page is aligned. */
  lemma AddressMod(first: int, top: nat, i: int, k: nat)
    requires Multiple(first, top) && k <= top
    ensures (first + i) % Pow2(k) == 0 <==> Multiple(i, k)
  {
    MultipleDown(first, top, k);
    MultipleAdd(first, i, k);
    MultipleIsMod(first + i, k);
  }

  // ---------------------------------------------------------------- tilings

  /** `head[p]` is the first page of the block of page `p`, and `order` gives the order of the block that starts there.
      Blocks tile the pages, and each starts at a multiple of its size. */
  ghost predicate Tiling(head: seq<int>, order: seq<nat>)
  {
    |head| == |order| && Headed(head, order) && Blocks(head, order) && AtMultiples(head, order)
  }

  ghost predicate Headed(head: seq<int>, order: seq<nat>)
    requires |head| == |order|
  {
    && (forall p {:trigger head[p]} :: 0 <= p < |head| ==> 0 <= head[p] <= p && head[head[p]] == head[p])
    && (forall p {:trigger head[p]} :: 0 <= p < |head| ==> p < head[p] + Pow2(order[head[p]]))
    && (forall h {:trigger order[h]} :: 0 <= h < |head| && head[h] == h ==>
          order[h] < FREELISTS && h + Pow2(order[h]) <= |head|)
  }

  ghost predicate Blocks(head: seq<int>, order: seq<nat>)
    requires |head| == |order|
  {
    forall h, q {:trigger order[h], head[q]} ::
      0 <= h < |head| && head[h] == h && h <= q < h + Pow2(order[h]) && q < |head| ==>
      head[q] == h
  }

  ghost predicate AtMultiples(head: seq<int>, order: seq<nat>)
    requires |head| == |order|
  {
    forall h {:trigger order[h]} :: 0 <= h < |head| && head[h] == h ==> Multiple(h, order[h])
  }

  /** A cell of 2^j pages lies inside a range of whole cells, or apart from it. */
  lemma PairInside(a: int, b: int, start: int, end: int, j: nat)
    requires Multiple(a, j) && Multiple(start, j) && Multiple(end, j) && a <= b < a + Pow2(j) && start <= b < end
    ensures start <= a && a + Pow2(j) <= end
  {
    if start > a {
      NearMultiples(a, start, j);
    }
    RoomFor(a, end, j);
  }

  lemma BuddyMultiple(h: int, k: nat)
    requires 0 <= h && Multiple(h, k)
    ensures 0 <= BuddyOf(h, k) && Multiple(BuddyOf(h, k), k) && BuddyOf(BuddyOf(h, k), k) == h
  {
    Halves(h, k);
    if !Multiple(h, k + 1) {
      MultipleDown(h - Pow2(k), k + 1, k);
    }
  }

  /** The buddy of an aligned block starts a block that is not larger, if it lies in an aligned block. */
  lemma BuddyIsHead(head: seq<int>, order: seq<nat>, h: int)
    requires |head| == |order| && Headed(head, order) && Blocks(head, order)
    requires 0 <= h < |head| && head[h] == h && Multiple(h, order[h])
    requires var b := BuddyOf(h, order[h]); 0 <= b < |head| ==> Multiple(head[b], order[head[b]])
    ensures var b := BuddyOf(h, order[h]);
      0 <= b && (b < |head| ==> head[b] == b && order[b] <= order[h])
  {
    var k := order[h];
    var b := BuddyOf(h, k);
    Halves(h, k);
    if b < |head| {
      var start := head[b];
      var m := order[start];
      if m <= k {
        BuddyMultiple(h, k);
        MultipleDown(b, k, m);
        NearMultiples(start, b, m);
      } else {
        var end := start + Pow2(m);
        Halves(start, m);
        MultipleDown(start, m, k + 1);
        MultipleDown(end, m, k + 1);
        PairInside(if b < h then b else h, b, start, end, k + 1);
      }
    }
  }

  /** The pages from `first` to before `end` belong to the block of `h`. */
  ghost function Assign(head: seq<int>, first: int, end: int, h: int): (r: seq<int>)
    ensures |r| == |head|
    ensures forall p {:trigger r[p]} :: 0 <= p < |head| ==> r[p] == if first <= p < end then h else head[p]
  {
    seq(|head|, p requires 0 <= p < |head| => if first <= p < end then h else head[p])
  }

  /** `a` starts a block and so does its upper buddy. */
  ghost predicate BuddiesAt(head: seq<int>, order: seq<nat>, a: int, k: nat)
    requires |head| == |order|
  {
    && 0 <= a && a + Pow2(k) < |head| && k + 1 < FREELISTS
    && head[a] == a && order[a] == k && head[a + Pow2(k)] == a + Pow2(k) && order[a + Pow2(k)] == k
  }

  /** What merging the blocks at `a` and `a + 2^k` does to the heads and orders. */
  ghost predicate MergedAt(head: seq<int>, order: seq<nat>, head': seq<int>, order': seq<nat>, a: int, k: nat)
  {
    && |head| == |order| == |head'| == |order'| && BuddiesAt(head, order, a, k) && order' == order[a := k + 1]
    && (forall p {:trigger head'[p]} :: 0 <= p < |head| ==> head'[p] == if head[p] == a + Pow2(k) then a else head[p])
  }

  /** Merging makes the pages of the upper buddy belong to the lower one. */
  lemma MergedHead(head: seq<int>, order: seq<nat>, a: int, k: nat)
    requires |head| == |order| && Headed(head, order) && Blocks(head, order) && BuddiesAt(head, order, a, k)
    ensures var b := a + Pow2(k); var head' := Assign(head, b, a + Pow2(k + 1), a);
      forall p {:trigger head'[p]} :: 0 <= p < |head| ==> head'[p] == if head[p] == b then a else head[p]
  {
    var b := a + Pow2(k);
    forall p | 0 <= p < |head| ensures head[p] == b <==> b <= p < a + Pow2(k + 1) {
      assert order[b] == k;
    }
  }

  lemma MergeHeadedAt(head: seq<int>, order: seq<nat>, head': seq<int>, order': seq<nat>, a: int, k: nat, p: int)
    requires MergedAt(head, order, head', order', a, k) && Headed(head, order) && 0 <= p < |head|
    ensures 0 <= head'[p] <= p && head'[head'[p]] == head'[p] && p < head'[p] + Pow2(order'[head'[p]])
  {
    var b, h := a + Pow2(k), head[p];
    if h == a || h == b {
      assert head'[p] == a && order'[a] == k + 1;
    } else {
      assert head'[p] == h && order'[h] == order[h];
    }
  }

  lemma MergeHeaded(head: seq<int>, order: seq<nat>, head': seq<int>, order': seq<nat>, a: int, k: nat)
    requires MergedAt(head, order, head', order', a, k) && Headed(head, order)
    ensures Headed(head', order')
  {
    forall p {:trigger head'[p]} | 0 <= p < |head|
      ensures 0 <= head'[p] <= p && head'[head'[p]] == head'[p] && p < head'[p] + Pow2(order'[head'[p]])
    {
      MergeHeadedAt(head, order, head', order', a, k, p);
    }
    forall h {:trigger order'[h]} | 0 <= h < |head| && head'[h] == h
      ensures order'[h] < FREELISTS && h + Pow2(order'[h]) <= |head|
    {
      MergedFits(head, order, head', order', a, k, h);
    }
  }

  lemma MergedFits(head: seq<int>, order: seq<nat>, head': seq<int>, order': seq<nat>, a: int, k: nat, h: int)
    requires MergedAt(head, order, head', order', a, k) && Headed(head, order) && 0 <= h < |head| && head'[h] == h
    ensures order'[h] < FREELISTS && h + Pow2(order'[h]) <= |head|
  {
    assert order[a + Pow2(k)] == k && order[h] >= 0;
  }

  lemma MergeBlocks(head: seq<int>, order: seq<nat>, head': seq<int>, order': seq<nat>, a: int, k: nat)
    requires MergedAt(head, order, head', order', a, k) && Blocks(head, order)
    ensures Blocks(head', order')
  {
    var b := a + Pow2(k);
    forall h, q {:trigger order'[h], head'[q]} |
      0 <= h < |head| && head'[h] == h && h <= q < h + Pow2(order'[h]) && q < |head|
      ensures head'[q] == h
    {
      assert order[a] == k && order[b] == k && order[h] >= 0 && head[q] == head[q];
    }
  }

  /** Two neighbours of one order become one block; if it is aligned and the others are, all are. */
  lemma MergeTiling(head: seq<int>, order: seq<nat>, a: int, k: nat) returns (head': seq<int>, order': seq<nat>)
    requires |head| == |order| && Headed(head, order) && Blocks(head, order) && BuddiesAt(head, order, a, k)
    ensures MergedAt(head, order, head', order', a, k) && Headed(head', order') && Blocks(head', order')
    ensures AtMultiples(head, order) && Multiple(a, k + 1) ==> AtMultiples(head', order')
  {
    head', order' := Assign(head, a + Pow2(k), a + Pow2(k + 1), a), order[a := k + 1];
    MergedHead(head, order, a, k);
    MergeHeaded(head, order, head', order', a, k);
    MergeBlocks(head, order, head', order', a, k);
    if AtMultiples(head, order) && Multiple(a, k + 1) {
      MergeMultiples(head, order, head', order', a, k);
    }
  }

  lemma MergeMultiples(head: seq<int>, order: seq<nat>, head': seq<int>, order': seq<nat>, a: int, k: nat)
    requires MergedAt(head, order, head', order', a, k) && AtMultiples(head, order) && Multiple(a, k + 1)
    ensures AtMultiples(head', order')
  {
    forall h {:trigger order'[h]} | 0 <= h < |head| && head'[h] == h ensures Multiple(h, order'[h]) {
      assert h == a || order'[h] == order[h];
    }
  }

  /** Splitting makes the pages of the upper half belong to it. */
  lemma SplitHead(head: seq<int>, order: seq<nat>, a: int, k: nat)
    requires |head| == |order| && Headed(head, order) && Blocks(head, order)
    requires 0 <= a < |head| && head[a] == a && order[a] == k + 1
    ensures var b := a + Pow2(k); var head' := Assign(head, b, a + Pow2(k + 1), b);
      && b < |head| && head[b] == a
      && (forall p {:trigger head'[p]} :: 0 <= p < |head| ==> head'[p] == if head[p] == a && p >= b then b else head[p])
  {
    var b := a + Pow2(k);
    assert order[a] == k + 1 && head[b] == a;
    forall p | 0 <= p < |head| ensures head[p] == a && p >= b <==> b <= p < a + Pow2(k + 1) {
      assert order[a] == k + 1;
    }
  }

  /** What splitting the block of order `k + 1` at `a` does to the heads and orders. */
  ghost predicate SplitAt(head: seq<int>, order: seq<nat>, head': seq<int>, order': seq<nat>, a: int, k: nat)
  {
    var b := a + Pow2(k);
    && |head| == |order| == |head'| == |order'| && 0 <= a && b < |head| && head[a] == a && order[a] == k + 1
    && head[b] == a
    && order' == order[a := k][b := k]
    && (forall p {:trigger head'[p]} :: 0 <= p < |head| ==> head'[p] == if head[p] == a && p >= b then b else head[p])
  }

  lemma SplitHeaded(head: seq<int>, order: seq<nat>, head': seq<int>, order': seq<nat>, a: int, k: nat)
    requires SplitAt(head, order, head', order', a, k) && Headed(head, order)
    ensures Headed(head', order')
  {
    var b := a + Pow2(k);
    forall p {:trigger head'[p]} | 0 <= p < |head|
      ensures 0 <= head'[p] <= p && head'[head'[p]] == head'[p] && p < head'[p] + Pow2(order'[head'[p]])
    {
      assert order[a] == k + 1 && order[head[p]] >= 0;
    }
    forall h {:trigger order'[h]} | 0 <= h < |head| && head'[h] == h
      ensures order'[h] < FREELISTS && h + Pow2(order'[h]) <= |head|
    {
      assert order[a] == k + 1 && order[h] >= 0;
    }
  }

  lemma SplitBlocks(head: seq<int>, order: seq<nat>, head': seq<int>, order': seq<nat>, a: int, k: nat)
    requires SplitAt(head, order, head', order', a, k) && Headed(head, order) && Blocks(head, order)
    ensures Blocks(head', order')
  {
    var b := a + Pow2(k);
    forall h, q {:trigger order'[h], head'[q]}
      | 0 <= h < |head| && head'[h] == h && h <= q < h + Pow2(order'[h]) && q < |head|
      ensures head'[q] == h
    {
      assert order[a] == k + 1 && order[h] >= 0 && head[q] <= q;
    }
  }

  /** A block becomes two halves; if blocks are aligned, so are the halves. */
  lemma SplitTiling(head: seq<int>, order: seq<nat>, a: int, k: nat) returns (head': seq<int>, order': seq<nat>)
    requires |head| == |order| && Headed(head, order) && Blocks(head, order)
    requires 0 <= a < |head| && head[a] == a && order[a] == k + 1
    ensures SplitAt(head, order, head', order', a, k) && Headed(head', order') && Blocks(head', order')
    ensures AtMultiples(head, order) ==> AtMultiples(head', order')
  {
    SplitHead(head, order, a, k);
    var b := a + Pow2(k);
    head', order' := Assign(head, b, a + Pow2(k + 1), b), order[a := k][b := k];
    SplitHeaded(head, order, head', order', a, k);
    SplitBlocks(head, order, head', order', a, k);
    if AtMultiples(head, order) {
      SplitMultiples(head, order, head', order', a, k);
    }
  }

  lemma SplitMultiples(head: seq<int>, order: seq<nat>, head': seq<int>, order': seq<nat>, a: int, k: nat)
    requires SplitAt(head, order, head', order', a, k) && AtMultiples(head, order)
    ensures AtMultiples(head', order')
  {
    assert order[a] == k + 1;
    MultipleDown(a, k + 1, k);
    Halves(a, k);
    forall h {:trigger order'[h]} | 0 <= h < |head| && head'[h] == h ensures Multiple(h, order'[h]) {
      assert h == a || h == a + Pow2(k) || order'[h] == order[h];
    }
  }

  // ---------------------------------------------------------------- pages and lists

  datatype Page = Page(used: bool, inList: bool, listIndex: int)

  /** The first page of a block is used or in a list; the others are neither. The loose page is not looked at. */
  ghost predicate Flagged(pages: seq<Page>, head: seq<int>, order: seq<nat>, loose: int)
  {
    && |pages| == |head| == |order|
    && (forall p {:trigger pages[p]} :: 0 <= p < |pages| && head[p] != p ==> !pages[p].used && !pages[p].inList)
    && (forall p {:trigger pages[p]} :: 0 <= p < |pages| && head[p] == p && p != loose ==>
          pages[p].listIndex == order[p] && (pages[p].used <==> !pages[p].inList))
  }

  /** `p` starts a block that is in the list of order `k`. */
  predicate FreeBlock(pages: seq<Page>, head: seq<int>, order: seq<nat>, p: int, k: int)
    requires |pages| == |head| == |order|
  {
    0 <= p < |pages| && head[p] == p && pages[p].inList && order[p] == k
  }

  /** The lists hold the free blocks, each of them once. */
  ghost predicate Listed(lists: seq<seq<int>>, pages: seq<Page>, head: seq<int>, order: seq<nat>)
    requires |pages| == |head| == |order|
  {
    && |lists| == FREELISTS
    && (forall k {:trigger lists[k]} :: 0 <= k < FREELISTS ==> Distinct(lists[k]))
    && (forall k, p {:trigger p in lists[k]} :: 0 <= k < FREELISTS ==>
          (p in lists[k] <==> FreeBlock(pages, head, order, p, k)))
  }

  /** No two buddies below the largest order are both free. */
  ghost predicate Coalesced(pages: seq<Page>, head: seq<int>, order: seq<nat>)
    requires |pages| == |head| == |order|
  {
    forall h {:trigger order[h]} ::
      0 <= h < |pages| && FreeBlock(pages, head, order, h, order[h]) && order[h] + 1 < FREELISTS ==>
      !FreeBlock(pages, head, order, BuddyOf(h, order[h]), order[h])
  }

  /** The used blocks are the live ones. */
  ghost predicate Owned(live: map<int, int>, pages: seq<Page>, head: seq<int>, order: seq<nat>, loose: int)
    requires |pages| == |head| == |order|
  {
    && (forall p {:trigger p in live} :: p in live <==> 0 <= p < |pages| && head[p] == p && pages[p].used && p != loose)
    && (forall p {:trigger live[p]} :: p in live ==> live[p] == order[p])
  }

  /** The pages after the buddies at `page` and `buddy` have become one block of order `k + 1` at `a`. */
  function MergedPages(pages: seq<Page>, buddy: int, a: int, k: nat): (r: seq<Page>)
    requires 0 <= buddy < |pages| && 0 <= a < |pages|
    ensures |r| == |pages|
  {
    var p := pages[buddy := pages[buddy].(inList := false)];
    p[a := p[a].(inList := false, listIndex := k + 1)]
  }

  lemma MergeHeads(head: seq<int>, order: seq<nat>, head': seq<int>, order': seq<nat>, a: int, k: nat)
    requires MergedAt(head, order, head', order', a, k)
    ensures forall p {:trigger head'[p]} :: 0 <= p < |head| ==> (head'[p] == p <==> head[p] == p && p != a + Pow2(k))
  {
  }

  lemma MergeFlags(pages: seq<Page>, head: seq<int>, order: seq<nat>, page: int, buddy: int, b: int, k: nat,
                   head': seq<int>)
    requires Flagged(pages, head, order, page) && |head'| == |head| && 0 <= page < |pages| && 0 <= buddy < |pages|
    requires (page < buddy && b == buddy) || (buddy < page && b == page)
    requires head[page] == page && pages[page] == Page(false, false, k) && head[buddy] == buddy && !pages[buddy].used
    requires forall p {:trigger head'[p]} :: 0 <= p < |head| ==> (head'[p] == p <==> head[p] == p && p != b)
    ensures var a := if page < buddy then page else buddy;
      var pages', order' := MergedPages(pages, buddy, a, k), order[a := k + 1];
      && Flagged(pages', head', order', a) && pages'[a] == Page(false, false, k + 1)
      && (forall p, j {:trigger FreeBlock(pages', head', order', p, j)} ::
            FreeBlock(pages', head', order', p, j) <==> FreeBlock(pages, head, order, p, j) && p != buddy)
      && (forall p {:trigger pages'[p]} :: 0 <= p < |pages| ==>
            (head'[p] == p && pages'[p].used && p != a <==> head[p] == p && pages[p].used && p != page))
  {
  }

  /** A block has left its list. */
  lemma FreeRemoved(lists: seq<seq<int>>, pages: seq<Page>, head: seq<int>, order: seq<nat>,
                    pages': seq<Page>, head': seq<int>, order': seq<nat>, x: int, k: int, rest: seq<int>)
    requires |pages| == |head| == |order| == |pages'| == |head'| == |order'|
    requires Listed(lists, pages, head, order) && 0 <= k < FREELISTS && FreeBlock(pages, head, order, x, k)
    requires Distinct(rest) && forall y {:trigger y in rest} :: y in rest <==> y in lists[k] && y != x
    requires forall p, j {:trigger FreeBlock(pages', head', order', p, j)} ::
      FreeBlock(pages', head', order', p, j) <==> FreeBlock(pages, head, order, p, j) && p != x
    ensures Listed(lists[k := rest], pages', head', order')
    ensures Coalesced(pages, head, order) ==> Coalesced(pages', head', order')
  {
  }

  lemma ListedAdded(lists: seq<seq<int>>, pages: seq<Page>, head: seq<int>, order: seq<nat>,
                    pages': seq<Page>, head': seq<int>, order': seq<nat>, x: int, k: nat)
    requires |pages| == |head| == |order| && |pages'| == |head'| == |order'|
    requires Listed(lists, pages, head, order) && k < FREELISTS && !FreeBlock(pages, head, order, x, k)
    requires forall p, j {:trigger FreeBlock(pages', head', order', p, j)} ::
      FreeBlock(pages', head', order', p, j) <==> FreeBlock(pages, head, order, p, j) || (p == x && j == k)
    ensures Listed(lists[k := lists[k] + [x]], pages', head', order')
  {
    assert x !in lists[k];
    PushMembers(lists[k], x);
  }

  /** A block whose buddy is not free has come into a list. */
  lemma CoalescedAdded(pages: seq<Page>, head: seq<int>, order: seq<nat>,
                       pages': seq<Page>, head': seq<int>, order': seq<nat>, x: int, k: nat)
    requires |pages| == |head| == |order| && |pages'| == |head'| == |order'|
    requires Coalesced(pages, head, order) && AtMultiples(head, order) && 0 <= x && Multiple(x, k)
    requires k + 1 < FREELISTS ==> !FreeBlock(pages, head, order, BuddyOf(x, k), k)
    requires forall p, j {:trigger FreeBlock(pages', head', order', p, j)} ::
      FreeBlock(pages', head', order', p, j) <==> FreeBlock(pages, head, order, p, j) || (p == x && j == k)
    ensures Coalesced(pages', head', order')
  {
    forall h {:trigger order'[h]}
      | 0 <= h < |pages'| && FreeBlock(pages', head', order', h, order'[h]) && order'[h] + 1 < FREELISTS
      ensures !FreeBlock(pages', head', order', BuddyOf(h, order'[h]), order'[h])
    {
      if h != x {
        assert FreeBlock(pages, head, order, h, order[h]) && order[h] == order'[h];
        BuddyMultiple(h, order[h]);
      }
    }
  }

  /** Blocks tile the pages, the lists hold the free ones and the others are live; the loose block is in no list and not
      counted as live. */
  ghost predicate Rough(pages: seq<Page>, lists: seq<seq<int>>, head: seq<int>, order: seq<nat>, live: map<int, int>,
                        loose: int)
  {
    && |head| == |order| && Headed(head, order) && Blocks(head, order) && Flagged(pages, head, order, loose)
    && Listed(lists, pages, head, order) && Owned(live, pages, head, order, loose)
  }

  /** Blocks start at multiples of their size, and no two free buddies have been left unmerged. */
  ghost predicate Strict(pages: seq<Page>, head: seq<int>, order: seq<nat>)
    requires |pages| == |head| == |order|
  {
    AtMultiples(head, order) && Coalesced(pages, head, order)
  }

  /** Something about the blocks that the operations keep: they are aligned and merged; or all but a few of them are
      aligned, and no page inside these few looks like a block; or they are aligned by address, and those at addresses
      that are multiples of 2^k have at least order `k`. */
  datatype Promise = Merged | Nearly(v: nat) | ByAddress(first: int, k: nat)

  ghost predicate Kept(c: Promise, pages: seq<Page>, head: seq<int>, order: seq<nat>)
    requires |pages| == |head| == |order|
  {
    match c
    case Merged => Strict(pages, head, order)
    case Nearly(v) => NearlyAligned(v, pages, head, order)
    case ByAddress(first, k) => AlignedByAddress(first, k, head, order)
  }

  /** All of the books are in order. */
  ghost predicate Books(pages: seq<Page>, lists: seq<seq<int>>, head: seq<int>, order: seq<nat>, live: map<int, int>,
                        loose: int)
  {
    Rough(pages, lists, head, order, live, loose) && Strict(pages, head, order)
  }

  // ---------------------------------------------------------------- nearly aligned blocks

  /** The blocks that need not be aligned. With units of 2^v pages, and fewer than seven of them: two units at 1 and at
      3, and four units at 1. Or, if these are the largest blocks, any two units. */
  predicate Off(v: nat, h: int, k: nat)
  {
    if v <= 11 then (h == Pow2(v) && (k == v + 1 || k == v + 2)) || (h == 3 * Pow2(v) && k == v + 1)
    else v == 12 && k == v + 1 && Multiple(h, v)
  }

  /** A block of order `k` may start at `h`. */
  predicate MayStart(v: nat, h: int, k: nat) { Multiple(h, k) || Off(v, h, k) }

  /** Page `q` lies inside an unaligned block and starts two units by its number. */
  ghost predicate Hidden(v: nat, head: seq<int>, order: seq<nat>, q: int)
    requires |head| == |order| && Headed(head, order) && 0 <= q < |head|
  {
    head[q] != q && !Multiple(head[q], order[head[q]]) && Multiple(q, v + 1)
  }

  ghost predicate NearlyAligned(v: nat, pages: seq<Page>, head: seq<int>, order: seq<nat>)
    requires |pages| == |head| == |order|
  {
    var u := Pow2(v);
    && Headed(head, order) && (v <= 11 ==> |head| < 7 * u)
    && (forall h {:trigger MayStart(v, h, order[h])} :: 0 <= h < |head| && head[h] == h ==> MayStart(v, h, order[h]))
    && (forall q {:trigger Hidden(v, head, order, q)} :: 0 <= q < |pages| && Hidden(v, head, order, q) ==>
          pages[q].listIndex != v)
    && (v <= 11 && u < |head| && head[u] != u ==> pages[u].listIndex == v)
  }

  lemma OffHead(v: nat, h: int, k: nat)
    requires Off(v, h, k) && !Multiple(h, k)
    ensures v < k && v <= 12 && Multiple(h, v) && !Multiple(h, v + 1)
  {
    if v <= 11 {
      OddUnits(v, if h == Pow2(v) then 1 else 3);
    }
  }

  lemma OffFacts(v: nat, h: int, k: nat)
    requires Off(v, h, k) && !Multiple(h, k)
    ensures v < k && v <= 12 && Multiple(h, v) && !Multiple(h, v + 1) && Multiple(h + Pow2(k), v)
  {
    OffHead(v, h, k);
    WholeUnits(v, k);
    MultiplePlus(h, Pow2(k), v);
  }

  lemma OddUnits(v: nat, c: int)
    requires c % 2 == 1
    ensures Multiple(c * Pow2(v), v) && !Multiple(c * Pow2(v), v + 1)
  {
    UnitMultiple(c, v, 0);
    UnitMultiple(c, v, 1);
  }

  lemma UnitParity(c: int, v: nat)
    ensures Multiple(c * Pow2(v), v + 1) <==> c % 2 == 0
  {
    UnitMultiple(c, v, 1);
    SmallMultiples(c);
  }

  lemma WholeUnits(v: nat, k: nat)
    requires v <= k
    ensures Multiple(Pow2(k), v)
  {
    Pow2Add(k - v, v);
    UnitMultiple(Pow2(k - v), v, 0);
  }

  lemma MultiplePlus(x: int, y: int, k: nat)
    requires Multiple(x, k) && Multiple(y, k)
    ensures Multiple(x + y, k)
  {
    MultipleAdd(x, y, k);
  }

  /** Aligned blocks are nearly aligned. */
  lemma AlignedIsNearly(pages: seq<Page>, head: seq<int>, order: seq<nat>)
    requires |pages| == |head| == |order| && Headed(head, order) && AtMultiples(head, order)
    ensures NearlyAligned(13, pages, head, order)
  {
    forall h {:trigger MayStart(13, h, order[h])} | 0 <= h < |head| && head[h] == h ensures MayStart(13, h, order[h]) {
      assert order[h] >= 0;
    }
    forall q {:trigger Hidden(13, head, order, q)} | 0 <= q < |pages| ensures !Hidden(13, head, order, q) {
      assert order[head[q]] >= 0;
    }
  }

  /** The orders that the pages inside blocks show are the same. */
  lemma SameTiles(c: Promise, pages: seq<Page>, pages': seq<Page>, head: seq<int>, order: seq<nat>)
    requires |pages| == |pages'| == |head| == |order| && Kept(c, pages, head, order)
    requires c.Merged? ==> Coalesced(pages', head, order)
    requires forall q {:trigger pages'[q]} :: 0 <= q < |head| && head[q] != q ==>
      pages'[q].listIndex == pages[q].listIndex
    ensures Kept(c, pages', head, order)
  {
  }

  /** A few units are a small number of them. */
  lemma Units(p: int, v: nat, n: nat) returns (c: int)
    requires Multiple(p, v) && 0 <= p < n * Pow2(v)
    ensures p == c * Pow2(v) && 0 <= c < n
  {
    c := Quotient(p, v);
    if c < 0 {
      assert c * Pow2(v) <= -1 * Pow2(v) by { SmallerProduct(c, -1, Pow2(v)); }
    }
    if c >= n {
      SmallerProduct(n, c, Pow2(v));
    }
  }

  lemma SmallerProduct(x: int, y: int, s: nat)
    requires x <= y
    ensures x * s <= y * s
  {
  }

  // The buddy of an aligned block at `p` lies inside an unaligned block at `h`. Then so does `p`, or the buddy is
  // hidden.

  /** A block and its buddy are the halves of a cell. */
  lemma CellOf(p: int, b: int, k: nat) returns (a: int)
    requires 0 <= p && Multiple(p, k) && b == BuddyOf(p, k)
    ensures Multiple(a, k + 1) && a == if p < b then p else b
    ensures a <= p < a + Pow2(k + 1) && a <= b < a + Pow2(k + 1)
  {
    Halves(p, k);
    a := if p < b then p else b;
  }

  /** Blocks of less than one unit. */
  lemma BesideInUnit(v: nat, h: int, end: int, p: int, b: int, k: nat)
    requires Multiple(h, v) && Multiple(end, v) && 0 <= p && Multiple(p, k) && b == BuddyOf(p, k) && k < v
    requires h <= b < end
    ensures h <= p < end
  {
    var a := CellOf(p, b, k);
    MultipleDown(h, v, k + 1);
    MultipleDown(end, v, k + 1);
    PairInside(a, b, h, end, k + 1);
  }

  /** Blocks of one unit. */
  lemma BesideUnit(v: nat, h: int, p: int, b: int)
    requires Multiple(h, v) && 0 <= p && Multiple(p, v) && b == BuddyOf(p, v) && h < b
    ensures Multiple(b, v + 1) || h <= p < b
  {
    var a := CellOf(p, b, v);
    if p < h && b == p + Pow2(v) {
      NearMultiples(p, h, v);
    }
  }

  lemma UnitsOf(p: int, k: nat, v: nat) returns (c: int)
    requires Multiple(p, k) && v < k && 0 <= p < 7 * Pow2(v)
    ensures p == c * Pow2(v) && 0 <= c < 7 && c % 2 == 0
  {
    MultipleDown(p, k, v);
    MultipleDown(p, k, v + 1);
    c := Units(p, v, 7);
    UnitParity(c, v);
  }

  /** Blocks of more than one unit. */
  lemma BesideLarger(v: nat, h: int, m: nat, p: int, b: int, k: nat)
    requires v <= 11 && v < k && Off(v, h, m) && 0 <= p && Multiple(p, k) && b == BuddyOf(p, k) && Multiple(b, k)
    requires h < b < h + Pow2(m) && p + Pow2(k) < 7 * Pow2(v) && b < 7 * Pow2(v)
    ensures p <= h < p + Pow2(k)
  {
    var c := UnitsOf(p, k, v);
    var d := UnitsOf(b, k, v);
    EvenInside(v, h, m, d);
    LargerBesideAt(v, c, d, k);
    InsideFirst(v, h, c, d, k);
  }

  /** The even units inside an unaligned block. */
  lemma EvenInside(v: nat, h: int, m: nat, d: int)
    requires v <= 11 && Off(v, h, m) && h < d * Pow2(v) < h + Pow2(m) && 0 <= d < 7 && d % 2 == 0
    ensures (d == 2 && h == Pow2(v)) || (d == 4 && (h == Pow2(v) || h == 3 * Pow2(v)))
  {
    OffSize(v, m);
    EvenBetween(Pow2(v), h, Pow2(m), d);
  }

  lemma EvenBetween(u: nat, h: int, size: nat, d: int)
    requires u > 0 && ((h == u && size <= 4 * u) || (h == 3 * u && size == 2 * u))
    requires h < d * u < h + size && 0 <= d < 7 && d % 2 == 0
    ensures (d == 2 && h == u) || d == 4
  {
    assert d == 0 || d == 2 || d == 4 || d == 6;
  }

  lemma InsideFirst(v: nat, h: int, c: int, d: int, k: nat)
    requires c == 0 && v < k && (d == 2 ==> k == v + 1) && (d == 4 ==> k == v + 2)
    requires (d == 2 && h == Pow2(v)) || (d == 4 && (h == Pow2(v) || h == 3 * Pow2(v)))
    ensures c * Pow2(v) <= h < c * Pow2(v) + Pow2(k)
  {
    OffSize(v, k);
  }

  lemma OffSize(v: nat, m: nat)
    ensures m == v + 1 ==> Pow2(m) == 2 * Pow2(v)
    ensures m == v + 2 ==> Pow2(m) == 4 * Pow2(v)
  {
  }

  /** All of them. */
  lemma BesideOff(v: nat, h: int, m: nat, p: int, b: int, k: nat)
    requires Off(v, h, m) && !Multiple(h, m) && 0 <= p && Multiple(p, k) && b == BuddyOf(p, k) && Multiple(b, k)
    requires k + 1 < FREELISTS && h < b < h + Pow2(m) && (v <= 11 ==> p + Pow2(k) < 7 * Pow2(v) && b < 7 * Pow2(v))
    ensures (k == v && Multiple(b, v + 1)) || h <= p < h + Pow2(m) || p <= h < p + Pow2(k)
  {
    OffFacts(v, h, m);
    if k < v {
      BesideInUnit(v, h, h + Pow2(m), p, b, k);
    } else if k == v {
      BesideUnit(v, h, p, b);
    } else {
      BesideLarger(v, h, m, p, b, k);
    }
  }

  /** Of the units below seven, the buddies of blocks of more than one unit at 2 and 4 are at 0 and 6. */
  lemma LargerBesideAt(v: nat, c: int, d: int, k: nat)
    requires 0 <= c < 7 && (d == 2 || d == 4) && v < k && Multiple(c * Pow2(v), k)
    requires d * Pow2(v) == BuddyOf(c * Pow2(v), k)
    requires Multiple(d * Pow2(v), k) && c * Pow2(v) + Pow2(k) < 7 * Pow2(v)
    ensures c == 0 && (d == 2 ==> k == v + 1) && (d == 4 ==> k == v + 2)
  {
    var u, j := Pow2(v), k - v;
    assert Pow2(v + 1) == 2 * u && Pow2(v + 2) == 4 * u && Pow2(v + 3) == 8 * u;
    if k >= v + 3 {
      Pow2Monotone(v + 3, k);
      assert false;
    }
    UnitMultiple(c, v, j);
    UnitMultiple(d, v, j);
    UnitMultiple(c, v, j + 1);
    SmallMultiples(c);
    SmallMultiples(d);
  }

  lemma SmallMultiples(c: int)
    ensures Multiple(c, 1) <==> c % 2 == 0
    ensures Multiple(c, 2) <==> c % 4 == 0
    ensures Multiple(c, 3) <==> c % 8 == 0
  {
    assert Pow2(1) == 2 && Pow2(2) == 4 && Pow2(3) == 8;
    MultipleIsMod(c, 1);
    MultipleIsMod(c, 2);
    MultipleIsMod(c, 3);
  }

  /** `page` starts a block of order `k` and its page says so. */
  ghost predicate LooseFrom(pages: seq<Page>, head: seq<int>, order: seq<nat>, page: int, k: int)
  {
    && |pages| == |head| == |order| && 0 <= page < |head|
    && head[page] == page && order[page] == k && pages[page].listIndex == k
  }

  /** `page` is a loose free block of order `k`. */
  ghost predicate LooseAt(pages: seq<Page>, head: seq<int>, order: seq<nat>, page: int, k: int)
  {
    && |pages| == |head| == |order| && 0 <= page < |head|
    && head[page] == page && order[page] == k && pages[page] == Page(false, false, k)
  }

  /** What a block at `p` and its buddy at `b` make up: an aligned block, or the four units at 1. */
  predicate Joined(v: nat, p: int, b: int, k: nat)
  {
    && (b == p + Pow2(k) || p == b + Pow2(k))
    && ((Multiple(p, k) && Multiple(if p < b then p else b, k + 1)) ||
        (v <= 11 && k == v + 1 && b == Pow2(v) && p == 3 * Pow2(v)))
  }

  lemma AlignedJoins(v: nat, p: int, k: nat)
    requires 0 <= p && Multiple(p, k)
    ensures Joined(v, p, BuddyOf(p, k), k)
  {
    Halves(p, k);
  }

  /** The buddy of an aligned block is inside an unaligned block only as a hidden page. */
  lemma InsideOff(v: nat, head: seq<int>, order: seq<nat>, p: int, b: int, k: nat)
    requires |head| == |order| && Headed(head, order) && Blocks(head, order) && 0 <= p < |head| && 0 <= b < |head|
    requires head[p] == p && order[p] == k && Multiple(p, k) && b == BuddyOf(p, k) && Multiple(b, k)
    requires k + 1 < FREELISTS
    requires v <= 11 ==> |head| < 7 * Pow2(v)
    requires !Multiple(head[b], order[head[b]]) && Off(v, head[b], order[head[b]]) && head[b] != b
    ensures k == v && Hidden(v, head, order, b)
  {
    var h := head[b];
    var m := order[h];
    BesideOff(v, h, m, p, b, k);
  }

  /** The buddy of an aligned block that looks free. */
  lemma FreeBesideAligned(v: nat, pages: seq<Page>, head: seq<int>, order: seq<nat>, p: int, b: int, k: nat)
    requires Flagged(pages, head, order, p) && Blocks(head, order) && NearlyAligned(v, pages, head, order)
    requires LooseAt(pages, head, order, p, k) && k + 1 < FREELISTS && Multiple(p, k)
    requires b == BuddyOf(p, k) && 0 <= b < |head| && !pages[b].used && pages[b].listIndex == k
    ensures head[b] == b && order[b] == k
  {
    var h := head[b];
    Halves(p, k);
    BuddyMultiple(p, k);
    assert MayStart(v, h, order[h]) && order[p] == k;
    if Multiple(h, order[h]) {
      BuddyIsHead(head, order, p);
    } else if h != b {
      InsideOff(v, head, order, p, b, k);
    }
  }

  /** The buddy of an unaligned block that looks free. */
  lemma FreeBesideOff(v: nat, pages: seq<Page>, head: seq<int>, order: seq<nat>, p: int, b: int, k: nat)
    requires Flagged(pages, head, order, p) && Blocks(head, order) && NearlyAligned(v, pages, head, order)
    requires LooseAt(pages, head, order, p, k) && k + 1 < FREELISTS && !Multiple(p, k)
    requires b == BuddyOf(p, k) && 0 <= b < |head| && pages[b].listIndex == k
    ensures head[b] == b && order[b] == k && Joined(v, p, b, k)
  {
    assert MayStart(v, p, order[p]) && order[p] == k;
    OffBuddy(v, p, k);
  }

  /** The buddies of the unaligned blocks lie before the first page, or at the second unit. */
  lemma OffBuddy(v: nat, p: int, k: nat)
    requires Off(v, p, k) && k + 1 < FREELISTS
    ensures BuddyOf(p, k) < 0 || (v <= 11 && k == v + 1 && p == 3 * Pow2(v) && BuddyOf(p, k) == Pow2(v))
  {
    var u := Pow2(v);
    assert Pow2(v + 1) == 2 * u && Pow2(v + 2) == 4 * u;
    var c := if p == u then 1 else 3;
    UnitMultiple(c, v, k - v + 1);
    SmallMultiples(c);
  }

  /** What looks like a free block of the same order beside a loose block is one. */
  lemma FreeBeside(v: nat, pages: seq<Page>, head: seq<int>, order: seq<nat>, p: int, b: int, k: nat)
    requires Flagged(pages, head, order, p) && Blocks(head, order) && NearlyAligned(v, pages, head, order)
    requires LooseAt(pages, head, order, p, k) && k + 1 < FREELISTS
    requires b == BuddyOf(p, k) && 0 <= b < |head| && !pages[b].used && pages[b].listIndex == k
    ensures FreeBlock(pages, head, order, b, k) && Joined(v, p, b, k)
  {
    if Multiple(p, k) {
      FreeBesideAligned(v, pages, head, order, p, b, k);
      AlignedJoins(v, p, k);
    } else {
      FreeBesideOff(v, pages, head, order, p, b, k);
    }
  }

  /** The unit at 1 is the upper half of a pair only as a block of one unit. */
  lemma UnitIsUpper(v: nat, a: int, k: nat)
    requires 0 <= a && Multiple(a, k + 1) && Pow2(v) == a + Pow2(k)
    ensures k == v
  {
    if k > v {
      Pow2Monotone(v + 1, k);
    } else if k < v {
      UnitMultiple(1, v, 0);
      MultipleDown(Pow2(v), v, k + 1);
      MultipleAdd(a, Pow2(k), k + 1);
      UnitParity(1, k);
    }
  }

  // A page that is hidden after a merge was hidden before.

  lemma MergeHiddenAligned(v: nat, head: seq<int>, order: seq<nat>, a: int, k: nat, head': seq<int>, order': seq<nat>,
                           q: int)
    requires MergedAt(head, order, head', order', a, k) && Headed(head, order) && Headed(head', order')
    requires Multiple(a, k + 1) && 0 <= q < |head| && Hidden(v, head', order', q)
    ensures Hidden(v, head, order, q) && q != a
  {
    assert head'[q] != a;
  }

  lemma MergeHiddenOff(v: nat, head: seq<int>, order: seq<nat>, a: int, b: int, head': seq<int>, order': seq<nat>,
                       q: int)
    requires MergedAt(head, order, head', order', a, v + 1) && Headed(head, order) && Headed(head', order')
    requires b == a + Pow2(v + 1) && !Multiple(a, v + 1) && !Multiple(b, v + 1)
    requires 0 <= q < |head| && Hidden(v, head', order', q)
    ensures Hidden(v, head, order, q) && q != a
  {
    assert order[a] == v + 1 && order[b] == v + 1;
  }

  lemma JoinedOff(v: nat, p: int, b: int, a: int, k: nat)
    requires Joined(v, p, b, k) && a == (if p < b then p else b) && !Multiple(a, k + 1)
    ensures k == v + 1 && p == a + Pow2(v + 1) && !Multiple(a, v + 1) && !Multiple(p, v + 1)
  {
    OffSize(v, k);
    OddUnits(v, 1);
    OddUnits(v, 3);
  }

  lemma MergeHidden(v: nat, head: seq<int>, order: seq<nat>, p: int, b: int, a: int, k: nat,
                    head': seq<int>, order': seq<nat>, q: int)
    requires MergedAt(head, order, head', order', a, k) && Headed(head, order) && Headed(head', order')
    requires Joined(v, p, b, k) && a == (if p < b then p else b) && 0 <= q < |head| && Hidden(v, head', order', q)
    ensures Hidden(v, head, order, q) && q != a
  {
    if Multiple(a, k + 1) {
      MergeHiddenAligned(v, head, order, a, k, head', order', q);
    } else {
      JoinedOff(v, p, b, a, k);
      MergeHiddenOff(v, head, order, a, p, head', order', q);
    }
  }

  lemma MergeOffs(v: nat, head: seq<int>, order: seq<nat>, p: int, b: int, a: int, k: nat,
                  head': seq<int>, order': seq<nat>, h: int)
    requires MergedAt(head, order, head', order', a, k) && Joined(v, p, b, k) && a == if p < b then p else b
    requires 0 <= h < |head| && head'[h] == h && (head[h] == h ==> MayStart(v, h, order[h]))
    ensures MayStart(v, h, order'[h])
  {
    assert h == a || (head[h] == h && order'[h] == order[h]);
  }

  lemma MergeNearly(v: nat, pages: seq<Page>, head: seq<int>, order: seq<nat>, p: int, b: int, a: int, k: nat,
                    pages': seq<Page>, head': seq<int>, order': seq<nat>)
    requires Flagged(pages, head, order, p) && NearlyAligned(v, pages, head, order) && LooseAt(pages, head, order, p, k)
    requires FreeBlock(pages, head, order, b, k) && Joined(v, p, b, k) && a == if p < b then p else b
    requires MergedAt(head, order, head', order', a, k) && Headed(head', order')
    requires pages' == MergedPages(pages, b, a, k)
    ensures NearlyAligned(v, pages', head', order')
  {
    var u := Pow2(v);
    forall h {:trigger MayStart(v, h, order'[h])} | 0 <= h < |head| && head'[h] == h ensures MayStart(v, h, order'[h]) {
      assert head[h] == h ==> MayStart(v, h, order[h]);
      MergeOffs(v, head, order, p, b, a, k, head', order', h);
    }
    forall q {:trigger Hidden(v, head', order', q)} | 0 <= q < |pages| && Hidden(v, head', order', q)
      ensures pages'[q].listIndex != v
    {
      MergeHidden(v, head, order, p, b, a, k, head', order', q);
      assert pages[q].listIndex != v;
    }
    if v <= 11 && u < |head| && head'[u] != u {
      MergeSecond(v, pages, head, order, p, b, a, k, head', order');
    }
  }

  /** The unit at 1 is merged away only as a block of one unit. */
  lemma MergeSecond(v: nat, pages: seq<Page>, head: seq<int>, order: seq<nat>, p: int, b: int, a: int, k: nat,
                    head': seq<int>, order': seq<nat>)
    requires Flagged(pages, head, order, p) && LooseAt(pages, head, order, p, k) && FreeBlock(pages, head, order, b, k)
    requires Joined(v, p, b, k) && a == (if p < b then p else b) && MergedAt(head, order, head', order', a, k)
    requires Pow2(v) < |head| && head'[Pow2(v)] != Pow2(v)
    requires head[Pow2(v)] != Pow2(v) ==> pages[Pow2(v)].listIndex == v
    ensures pages[Pow2(v)].listIndex == v && a != Pow2(v)
  {
    var u := Pow2(v);
    if head[u] == u {
      assert order[b] == k && order[p] == k && pages[u].listIndex == k;
      UnitIsUpper(v, a, k);
    }
  }

  lemma OffSplitUnit(v: nat, h: int, e: int)
    requires Off(v, h, v + 1) && !Multiple(h, v + 1) && e == h + Pow2(v)
    ensures Multiple(h, v) && Multiple(e, v)
  {
    OffHead(v, h, v + 1);
    NextUnit(v, h, e);
  }

  lemma NextUnit(v: nat, h: int, e: int)
    requires Multiple(h, v) && e == h + Pow2(v)
    ensures Multiple(e, v)
  {
    WholeUnits(v, v);
    MultiplePlus(h, Pow2(v), v);
  }

  lemma OffSplit(v: nat, h: int, k: nat)
    requires Off(v, h, k + 1) && !Multiple(h, k + 1)
    ensures MayStart(v, h, k) && MayStart(v, h + Pow2(k), k)
  {
    if k == v {
      OffSplitUnit(v, h, h + Pow2(k));
    } else {
      OffSize(v, k);
      assert h == Pow2(v) && Off(v, h, k) && Off(v, 3 * Pow2(v), k);
    }
  }

  lemma SplitNearly(v: nat, pages: seq<Page>, head: seq<int>, order: seq<nat>, page: int, k: nat,
                    pages': seq<Page>, head': seq<int>, order': seq<nat>)
    requires |pages| == |head| && SplitAt(head, order, head', order', page, k) && Headed(head', order')
    requires NearlyAligned(v, pages, head, order) && pages[page].used
    requires var b := page + Pow2(k); pages' == pages[b := pages[b].(inList := true, listIndex := k)]
    ensures NearlyAligned(v, pages', head', order')
  {
    assert MayStart(v, page, order[page]) && order[page] == k + 1;
    SplitHalves(v, page, k);
    SplitHeads(head, order, head', order', page, k);
    forall h {:trigger MayStart(v, h, order'[h])} | 0 <= h < |head| && head'[h] == h ensures MayStart(v, h, order'[h]) {
      assert head[h] == h ==> MayStart(v, h, order[h]);
      SplitOffs(v, head, order, page, k, head', order', h);
    }
    forall q {:trigger Hidden(v, head', order', q)} | 0 <= q < |pages| && Hidden(v, head', order', q)
      ensures pages'[q].listIndex != v
    {
      SplitHidden(v, head, order, page, k, head', order', q);
      assert pages[q].listIndex != v;
    }
  }

  lemma SplitOffs(v: nat, head: seq<int>, order: seq<nat>, page: int, k: nat, head': seq<int>, order': seq<nat>, h: int)
    requires SplitAt(head, order, head', order', page, k) && 0 <= h < |head| && head'[h] == h
    requires head[h] == h ==> MayStart(v, h, order[h])
    requires MayStart(v, page, k) && MayStart(v, page + Pow2(k), k)
    ensures MayStart(v, h, order'[h])
  {
  }

  lemma SplitHidden(v: nat, head: seq<int>, order: seq<nat>, page: int, k: nat, head': seq<int>, order': seq<nat>,
                    q: int)
    requires SplitAt(head, order, head', order', page, k) && Headed(head, order) && Headed(head', order')
    requires Multiple(page, k + 1) ==> Multiple(page, k) && Multiple(page + Pow2(k), k)
    requires 0 <= q < |head| && Hidden(v, head', order', q)
    ensures Hidden(v, head, order, q) && q != page + Pow2(k)
  {
    assert order[page] == k + 1;
  }

  lemma SplitHalves(v: nat, h: int, k: nat)
    requires 0 <= h && MayStart(v, h, k + 1)
    ensures MayStart(v, h, k) && MayStart(v, h + Pow2(k), k)
    ensures Multiple(h, k + 1) ==> Multiple(h, k) && Multiple(h + Pow2(k), k)
  {
    if Multiple(h, k + 1) {
      MultipleDown(h, k + 1, k);
      Halves(h, k);
    } else {
      OffSplit(v, h, k);
    }
  }

  /** The address of page `i` is a multiple of 2^k. */
  predicate MultipleAt(first: int, i: int, k: nat) { Multiple(first + i, k) }

  /** Blocks are aligned by their addresses, and those with the pages at multiples of 2^k have at least order `k`. */
  ghost predicate AlignedByAddress(first: int, k: nat, head: seq<int>, order: seq<nat>)
    requires |head| == |order|
  {
    && Headed(head, order)
    && (forall h {:trigger MultipleAt(first, h, order[h])} :: 0 <= h < |head| && head[h] == h ==>
          MultipleAt(first, h, order[h]))
    && (forall i {:trigger MultipleAt(first, i, k)} :: 0 <= i && i + Pow2(k) <= |head| && MultipleAt(first, i, k) ==>
          order[head[i]] >= k)
  }

  lemma SplitByAddress(c: Promise, head: seq<int>, order: seq<nat>, page: int, k: nat, head': seq<int>,
                       order': seq<nat>)
    requires c.ByAddress? && c.k <= k && SplitAt(head, order, head', order', page, k) && Headed(head', order')
    requires AlignedByAddress(c.first, c.k, head, order)
    ensures AlignedByAddress(c.first, c.k, head', order')
  {
    var b := page + Pow2(k);
    SplitHeads(head, order, head', order', page, k);
    assert MultipleAt(c.first, page, order[page]) && order[page] == k + 1;
    HalvesByAddress(c.first + page, c.first + b, k);
    forall h {:trigger MultipleAt(c.first, h, order'[h])} | 0 <= h < |head| && head'[h] == h
      ensures MultipleAt(c.first, h, order'[h])
    {
      assert h != page && h != b ==> MultipleAt(c.first, h, order[h]) && order'[h] == order[h];
    }
    forall i {:trigger MultipleAt(c.first, i, c.k)} | 0 <= i && i + Pow2(c.k) <= |head| && MultipleAt(c.first, i, c.k)
      ensures order'[head'[i]] >= c.k
    {
      assert order[head[i]] >= c.k;
    }
  }

  lemma HalvesByAddress(x: int, y: int, k: nat)
    requires Multiple(x, k + 1) && y == x + Pow2(k)
    ensures Multiple(x, k) && Multiple(y, k)
  {
    MultipleDown(x, k + 1, k);
    WholeUnits(k, k);
    MultiplePlus(x, Pow2(k), k);
  }

  /** The loose block at `page` and the free block next to it become one. */
  lemma MergeRough(pages: seq<Page>, lists: seq<seq<int>>, head: seq<int>, order: seq<nat>, live: map<int, int>,
                   page: int, buddy: int, a: int, k: nat, head': seq<int>, order': seq<nat>)
    returns (pages': seq<Page>, lists': seq<seq<int>>)
    requires Rough(pages, lists, head, order, live, page) && LooseAt(pages, head, order, page, k) && k + 1 < FREELISTS
    requires FreeBlock(pages, head, order, buddy, k) && (buddy == page + Pow2(k) || page == buddy + Pow2(k))
    requires a == if page < buddy then page else buddy
    requires MergedAt(head, order, head', order', a, k) && Headed(head', order') && Blocks(head', order')
    ensures pages' == MergedPages(pages, buddy, a, k) && lists' == lists[k := Without(lists[k], buddy)]
    ensures Rough(pages', lists', head', order', live, a) && LooseAt(pages', head', order', a, k + 1)
    ensures Coalesced(pages, head, order) ==> Coalesced(pages', head', order')
  {
    pages', lists' := MergedPages(pages, buddy, a, k), lists[k := Without(lists[k], buddy)];
    MergeHeads(head, order, head', order', a, k);
    MergeFlags(pages, head, order, page, buddy, a + Pow2(k), k, head');
    assert buddy in lists[k];
    WithoutMembers(lists[k], buddy);
    FreeRemoved(lists, pages, head, order, pages', head', order', buddy, k, Without(lists[k], buddy));
  }

  /** The page of the loose block says so. */
  lemma LooseRough(c: Promise, pages: seq<Page>, lists: seq<seq<int>>, head: seq<int>, order: seq<nat>, live: map<int,
                   int>, page: int)
    returns (pages': seq<Page>)
    requires Rough(pages, lists, head, order, live, page) && Kept(c, pages, head, order)
    requires 0 <= page < |head| && head[page] == page && !pages[page].inList
    ensures pages' == pages[page := Page(false, false, order[page])] && LooseAt(pages', head, order, page, order[page])
    ensures Rough(pages', lists, head, order, live, page) && Kept(c, pages', head, order)
  {
    pages' := pages[page := Page(false, false, order[page])];
    assert forall p, j {:trigger FreeBlock(pages', head, order, p, j)} ::
      FreeBlock(pages', head, order, p, j) <==> FreeBlock(pages, head, order, p, j);
    SameTiles(c, pages, pages', head, order);
  }

  /** The loose block goes into the list of its order. */
  lemma PushRough(c: Promise, pages: seq<Page>, lists: seq<seq<int>>, head: seq<int>, order: seq<nat>, live: map<int,
                  int>,
                  page: int, k: nat)
    returns (pages': seq<Page>, lists': seq<seq<int>>)
    requires Rough(pages, lists, head, order, live, page) && LooseAt(pages, head, order, page, k) && k < FREELISTS
    requires Kept(c, pages, head, order)
    requires c.Merged? && k + 1 < FREELISTS ==> !FreeBlock(pages, head, order, BuddyOf(page, k), k)
    ensures pages' == pages[page := pages[page].(inList := true)] && lists' == lists[k := lists[k] + [page]]
    ensures Rough(pages', lists', head, order, live, -1) && Kept(c, pages', head, order)
  {
    pages' := pages[page := pages[page].(inList := true)];
    lists' := lists[k := lists[k] + [page]];
    assert forall p, j {:trigger FreeBlock(pages', head, order, p, j)} ::
      FreeBlock(pages', head, order, p, j) <==> FreeBlock(pages, head, order, p, j) || (p == page && j == k);
    ListedAdded(lists, pages, head, order, pages', head, order, page, k);
    if c.Merged? {
      assert order[page] == k;
      CoalescedAdded(pages, head, order, pages', head, order, page, k);
    }
    SameTiles(c, pages, pages', head, order);
  }

  /** The last block of list `k` is taken out of it and marked as used with order `index`. */
  lemma PopRough(c: Promise, pages: seq<Page>, lists: seq<seq<int>>, head: seq<int>, order: seq<nat>, live: map<int,
                 int>,
                 k: nat, index: nat)
    returns (page: int, pages': seq<Page>, lists': seq<seq<int>>)
    requires Rough(pages, lists, head, order, live, -1) && Kept(c, pages, head, order) && k < FREELISTS
    requires lists[k] != []
    ensures page == lists[k][|lists[k]| - 1] && LooseFrom(pages, head, order, page, k)
    ensures pages' == pages[page := Page(true, false, index)] && lists' == lists[k := lists[k][..|lists[k]| - 1]]
    ensures Rough(pages', lists', head, order, live, page) && Kept(c, pages', head, order)
  {
    page := lists[k][|lists[k]| - 1];
    assert page in lists[k];
    assert FreeBlock(pages, head, order, page, k);
    pages' := pages[page := Page(true, false, index)];
    lists' := lists[k := lists[k][..|lists[k]| - 1]];
    PopMembers(lists[k]);
    assert forall p, j {:trigger FreeBlock(pages', head, order, p, j)} ::
      FreeBlock(pages', head, order, p, j) <==> FreeBlock(pages, head, order, p, j) && p != page;
    FreeRemoved(lists, pages, head, order, pages', head, order, page, k, lists[k][..|lists[k]| - 1]);
    SameTiles(c, pages, pages', head, order);
  }

  lemma SplitHeads(head: seq<int>, order: seq<nat>, head': seq<int>, order': seq<nat>, a: int, k: nat)
    requires SplitAt(head, order, head', order', a, k)
    ensures var b := a + Pow2(k);
      forall p {:trigger head'[p]} :: 0 <= p < |head| ==> (head'[p] == p <==> head[p] == p || p == b)
  {
  }

  lemma SplitFlags(pages: seq<Page>, head: seq<int>, order: seq<nat>, page: int, b: int, k: nat, head': seq<int>)
    requires Flagged(pages, head, order, page) && |head'| == |head| && 0 <= page < |pages| && 0 <= b < |pages|
    requires page != b
    requires head[page] == page && pages[page].used && !pages[page].inList && head[b] != b
    requires forall p {:trigger head'[p]} :: 0 <= p < |head| ==> (head'[p] == p <==> head[p] == p || p == b)
    ensures var pages', order' := pages[b := pages[b].(inList := true, listIndex := k)], order[page := k][b := k];
      && Flagged(pages', head', order', page)
      && (forall p, j {:trigger FreeBlock(pages', head', order', p, j)} ::
            FreeBlock(pages', head', order', p, j) <==> FreeBlock(pages, head, order, p, j) || (p == b && j == k))
      && (forall p {:trigger pages'[p]} :: 0 <= p < |pages| ==>
            (head'[p] == p && pages'[p].used <==> head[p] == p && pages[p].used))
  {
  }

  /** The block of order `k + 1` at `page` is split, and its upper half becomes free. */
  lemma SplitRough(c: Promise, pages: seq<Page>, lists: seq<seq<int>>, head: seq<int>, order: seq<nat>, live: map<int,
                   int>,
                   page: int, k: nat)
    returns (pages': seq<Page>, lists': seq<seq<int>>, head': seq<int>, order': seq<nat>)
    requires Rough(pages, lists, head, order, live, page) && 0 <= page < |head| && head[page] == page
    requires order[page] == k + 1 && pages[page].used && !pages[page].inList
    requires Kept(c, pages, head, order) && (c.ByAddress? ==> c.k <= k)
    ensures var second := page + Pow2(k);
      && second < |pages| && pages' == pages[second := pages[second].(inList := true, listIndex := k)]
      && k < FREELISTS && lists' == lists[k := lists[k] + [second]] && pages'[page] == pages[page]
    ensures Rough(pages', lists', head', order', live, page) && Kept(c, pages', head', order')
    ensures head'[page] == page && order'[page] == k && |head'| == |head|
  {
    var b := page + Pow2(k);
    head', order' := SplitTiling(head, order, page, k);
    SplitHeads(head, order, head', order', page, k);
    pages' := pages[b := pages[b].(inList := true, listIndex := k)];
    lists' := lists[k := lists[k] + [b]];
    SplitFlags(pages, head, order, page, b, k, head');
    ListedAdded(lists, pages, head, order, pages', head', order', b, k);
    match c
    case Merged => SplitCoalesced(pages, head, order, page, k, pages', head', order');
    case Nearly(v) => SplitNearly(v, pages, head, order, page, k, pages', head', order');
    case ByAddress(_, _) => SplitByAddress(c, head, order, page, k, head', order');
  }

  lemma SplitCoalesced(pages: seq<Page>, head: seq<int>, order: seq<nat>, page: int, k: nat,
                       pages': seq<Page>, head': seq<int>, order': seq<nat>)
    requires |pages| == |head| == |order| == |pages'| == |head'| == |order'|
    requires Strict(pages, head, order) && 0 <= page < |head| && head[page] == page && order[page] == k + 1
    requires !pages[page].inList
    requires forall p, j {:trigger FreeBlock(pages', head', order', p, j)} ::
      FreeBlock(pages', head', order', p, j) <==> FreeBlock(pages, head, order, p, j) || (p == page + Pow2(k) && j == k)
    ensures Coalesced(pages', head', order')
  {
    assert order[page] == k + 1;
    MultipleDown(page, k + 1, k);
    Halves(page, k);
    CoalescedAdded(pages, head, order, pages', head', order', page + Pow2(k), k);
  }

  /** The loose block at `page` is handed out. */
  lemma GrantRough(pages: seq<Page>, lists: seq<seq<int>>, head: seq<int>, order: seq<nat>, live: map<int, int>,
                   page: int)
    returns (live': map<int, int>)
    requires Rough(pages, lists, head, order, live, page) && 0 <= page < |head| && head[page] == page
    requires pages[page] == Page(true, false, order[page])
    ensures page !in live && live' == live[page := order[page]] && Rough(pages, lists, head, order, live', -1)
  {
    live' := live[page := order[page]];
  }

  /** The live block at `page` becomes loose. */
  lemma ReturnRough(pages: seq<Page>, lists: seq<seq<int>>, head: seq<int>, order: seq<nat>, live: map<int, int>,
                    page: int)
    returns (live': map<int, int>)
    requires Rough(pages, lists, head, order, live, -1) && page in live
    ensures live' == live - {page} && Rough(pages, lists, head, order, live', page)
    ensures 0 <= page < |head| && head[page] == page
    ensures pages[page] == Page(true, false, order[page]) && live[page] == order[page]
  {
    live' := live - {page};
  }

  /** Live blocks are aligned, lie inside the region and do not overlap. */
  lemma LiveApart(pages: seq<Page>, lists: seq<seq<int>>, head: seq<int>, order: seq<nat>, live: map<int, int>, p: int,
                  q: int)
    requires Books(pages, lists, head, order, live, -1) && p in live && q in live && p < q
    ensures 0 <= live[p] < FREELISTS && 0 <= live[q] < FREELISTS && 0 <= p
    ensures Multiple(p, live[p]) && p + Pow2(live[p]) <= q && q + Pow2(live[q]) <= |head|
  {
    assert live[p] == order[p] && live[q] == order[q];
    assert head[q] == q && head[p] == p;
  }

  // ---------------------------------------------------------------- when nothing is live

  /** Every block is as large as its place allows. */
  ghost predicate Greedy(head: seq<int>, order: seq<nat>, count: int)
    requires |head| == |order|
  {
    forall h {:trigger order[h]} :: 0 <= h < |head| && head[h] == h && order[h] + 1 < FREELISTS ==>
      !Multiple(h, order[h] + 1) || h + Pow2(order[h] + 1) > count
  }

  /** When all blocks are free, one that starts at a multiple of 2^k, with room for 2^k pages, has at least that
      order. */
  lemma {:induction false} OrderAtLeast(pages: seq<Page>, head: seq<int>, order: seq<nat>, y: int, k: nat)
    requires Tiling(head, order) && |pages| == |head| && Coalesced(pages, head, order) && k < FREELISTS
    requires forall h {:trigger pages[h]} :: 0 <= h < |head| && head[h] == h ==> pages[h].inList
    requires 0 <= y && y + Pow2(k) <= |head| && Multiple(y, k) && head[y] == y
    ensures order[y] >= k
    decreases k
  {
    var j := order[y];
    if j < k {
      MultipleDown(y, k, j + 1);
      Pow2Monotone(j + 1, k);
      BuddyIsHead(head, order, y);
      var z := BuddyOf(y, j);
      Halves(y, j);
      OrderAtLeast(pages, head, order, z, j);
    }
  }

  lemma AllFreeIsGreedy(pages: seq<Page>, lists: seq<seq<int>>, head: seq<int>, order: seq<nat>, live: map<int, int>)
    requires Books(pages, lists, head, order, live, -1) && live == map[]
    ensures Greedy(head, order, |head|)
  {
    forall h {:trigger pages[h]} | 0 <= h < |head| && head[h] == h ensures pages[h].inList {
      assert h !in live;
    }
    forall h {:trigger order[h]} | 0 <= h < |head| && head[h] == h && order[h] + 1 < FREELISTS
      ensures !Multiple(h, order[h] + 1) || h + Pow2(order[h] + 1) > |head|
    {
      if Multiple(h, order[h] + 1) && h + Pow2(order[h] + 1) <= |head| {
        OrderAtLeast(pages, head, order, h, order[h] + 1);
      }
    }
  }

  /** The page after the last one of a block starts a block. */
  lemma NextHead(head: seq<int>, order: seq<nat>, p: int)
    requires Tiling(head, order) && 0 < p < |head| && p >= head[p - 1] + Pow2(order[head[p - 1]])
    ensures head[p] == p
  {
    var g := head[p];
    assert order[g] >= 0;
  }

  lemma NotSmaller(head: seq<int>, order: seq<nat>, head': seq<int>, order': seq<nat>, x: int)
    requires Tiling(head, order) && Tiling(head', order') && |head| == |head'| && Greedy(head, order, |head|)
    requires 0 <= x < |head| && head[x] == x && head'[x] == x
    ensures order[x] >= order'[x]
  {
    var k, m := order[x], order'[x];
    if k < m {
      MultipleDown(x, m, k + 1);
      Pow2Monotone(k + 1, m);
    }
  }

  /** There is only one greedy tiling. */
  lemma {:induction false} GreedyIsUnique(head: seq<int>, order: seq<nat>, head': seq<int>, order': seq<nat>, p: int)
    requires Tiling(head, order) && Tiling(head', order') && |head| == |head'| && 0 <= p < |head|
    requires Greedy(head, order, |head|) && Greedy(head', order', |head|)
    ensures head[p] == head'[p] && order[head[p]] == order'[head[p]]
    decreases p
  {
    if p > 0 {
      GreedyIsUnique(head, order, head', order', p - 1);
      var h := head[p - 1];
      if p >= h + Pow2(order[h]) {
        NextHead(head, order, p);
        NextHead(head', order', p);
      } else {
        assert head[p] == h && head'[p] == h;
      }
    }
    if head[p] == p && head'[p] == p {
      NotSmaller(head, order, head', order', p);
      NotSmaller(head', order', head, order, p);
    }
  }

  // ---------------------------------------------------------------- carving

  /** `head'` and `order'` are `head` and `order` with a block of order `k` after them. */
  ghost predicate Extended(head: seq<int>, order: seq<nat>, head': seq<int>, order': seq<nat>, k: nat)
  {
    && |head| == |order| && |head'| == |order'| == |head| + Pow2(k) && order'[|head|] == k
    && (forall p {:trigger head'[p]} :: 0 <= p < |head'| ==> head'[p] == if p < |head| then head[p] else |head|)
    && (forall p {:trigger order'[p]} :: 0 <= p < |head| ==> order'[p] == order[p])
  }

  lemma ExtendedBlocks(head: seq<int>, order: seq<nat>, head': seq<int>, order': seq<nat>, k: nat)
    requires Extended(head, order, head', order', k) && Headed(head, order) && Blocks(head, order)
    ensures Blocks(head', order')
  {
    forall h, q {:trigger order'[h], head'[q]}
      | 0 <= h < |head'| && head'[h] == h && h <= q < h + Pow2(order'[h]) && q < |head'|
      ensures head'[q] == h
    {
      assert h < |head| ==> order[h] == order'[h] && head[h] == h;
    }
  }

  lemma ExtendedHeaded(head: seq<int>, order: seq<nat>, head': seq<int>, order': seq<nat>, k: nat)
    requires Extended(head, order, head', order', k) && Headed(head, order) && k < FREELISTS
    ensures Headed(head', order')
  {
    forall h {:trigger order'[h]} | 0 <= h < |head'| && head'[h] == h
      ensures order'[h] < FREELISTS && h + Pow2(order'[h]) <= |head'|
    {
      assert h < |head| ==> order[h] == order'[h] && head[h] == h;
    }
  }

  /** The first pages with a new block of order `k` after them. */
  lemma ExtendTiling(head: seq<int>, order: seq<nat>, k: nat) returns (head': seq<int>, order': seq<nat>)
    requires |head| == |order| && Headed(head, order) && Blocks(head, order) && k < FREELISTS
    ensures Extended(head, order, head', order', k) && Headed(head', order') && Blocks(head', order')
  {
    var n := |head|;
    head' := head + seq(Pow2(k), i => n);
    order' := order + seq(Pow2(k), i => k);
    ExtendedHeaded(head, order, head', order', k);
    ExtendedBlocks(head, order, head', order', k);
  }

  /** `piece` describes the pages of one free block of order `k`. */
  predicate OneBlock(piece: seq<Page>, k: nat)
  {
    && |piece| == Pow2(k) && piece[0] == Page(false, true, k)
    && forall i {:trigger piece[i]} :: 0 < i < |piece| ==> piece[i] == Page(false, false, FREELISTS)
  }

  lemma CarveFlags(pages: seq<Page>, head: seq<int>, order: seq<nat>, k: nat, piece: seq<Page>, head': seq<int>,
                   order': seq<nat>)
    requires Flagged(pages, head, order, -1) && OneBlock(piece, k) && Extended(head, order, head', order', k)
    ensures var pages' := pages + piece;
      && Flagged(pages', head', order', -1)
      && (forall p, j {:trigger FreeBlock(pages', head', order', p, j)} ::
            FreeBlock(pages', head', order', p, j) <==> FreeBlock(pages, head, order, p, j) || (p == |head| && j == k))
      && (forall p {:trigger pages'[p]} :: 0 <= p < |pages'| && head'[p] == p && pages'[p].used ==>
            p < |pages| && head[p] == p && pages[p].used)
  {
    var pages' := pages + piece;
    assert forall p {:trigger pages'[p]} ::
      0 <= p < |pages'| ==> pages'[p] == if p < |pages| then pages[p] else piece[p - |pages|];
  }

  /** Carving a block of order `k` off the pages after the first ones. */
  lemma CarveRough(pages: seq<Page>, lists: seq<seq<int>>, head: seq<int>, order: seq<nat>, k: nat, piece: seq<Page>)
    returns (head': seq<int>, order': seq<nat>, lists': seq<seq<int>>)
    requires Rough(pages, lists, head, order, map[], -1) && k < FREELISTS && OneBlock(piece, k)
    ensures lists' == lists[k := lists[k] + [|head|]] && Extended(head, order, head', order', k)
    ensures Rough(pages + piece, lists', head', order', map[], -1)
  {
    head', order' := ExtendTiling(head, order, k);
    lists' := lists[k := lists[k] + [|head|]];
    CarveFlags(pages, head, order, k, piece, head', order');
    ListedAdded(lists, pages, head, order, pages + piece, head', order', |head|, k);
    var none: map<int, int> := map[];
    assert forall p {:trigger p in none} :: p !in none;
  }

  lemma CarvePiece(pages: seq<Page>, i: int, k: nat) returns (piece: seq<Page>)
    requires 0 <= i && i + Pow2(k) <= |pages|
    requires forall p {:trigger pages[p]} :: i <= p < |pages| ==> pages[p] == Page(false, false, FREELISTS)
    ensures OneBlock(piece, k)
    ensures pages[i := pages[i].(listIndex := k, inList := true)][..i + Pow2(k)] == pages[..i] + piece
  {
    piece := pages[i := pages[i].(listIndex := k, inList := true)][i..i + Pow2(k)];
  }

  // ---------------------------------------------------------------- the operations on values

  datatype Memory = Memory(pages: seq<Page>, lists: seq<seq<int>>)

  predicate InRange(m: Memory, p: int, k: int) { 0 <= p < |m.pages| && 0 <= k < |m.lists| }

  /** The block at `p` is put into list `k`. */
  function PushBlock(m: Memory, p: int, k: int): Memory
  {
    if !InRange(m, p, k) then m
    else Memory(m.pages[p := m.pages[p].(inList := true)], m.lists[k := m.lists[k] + [p]])
  }

  /** The blocks at `p` and `buddy` become one; `buddy` leaves its list. */
  function MergeBlock(m: Memory, p: int, buddy: int, k: int): Memory
  {
    if !InRange(m, p, k) || !InRange(m, buddy, k) then m
    else
      var n := if m.pages[buddy].inList
               then Memory(m.pages[buddy := m.pages[buddy].(inList := false)], m.lists[k := Without(m.lists[k], buddy)])
               else m;
      var a := if p < buddy then p else buddy;
      n.(pages := n.pages[a := n.pages[a].(inList := false, listIndex := k + 1)])
  }

  /** The buddy of the block at `p` may be merged with it, as far as its page tells. A buddy before the first page is a
      reserved page: those have order 0, and only blocks of larger orders have such buddies. */
  predicate LooksFree(m: Memory, p: int, k: nat)
  {
    && InRange(m, p, k) && InRange(m, BuddyOf(p, k), k)
    && !m.pages[BuddyOf(p, k)].used && m.pages[BuddyOf(p, k)].listIndex == m.pages[p].listIndex
  }

  /** The loop of `freelist_insert`. */
  function InsertFrom(m: Memory, p: int, k: nat): Memory
    decreases FREELISTS - k
  {
    if k + 1 < FREELISTS && LooksFree(m, p, k) then
      var b := BuddyOf(p, k);
      InsertFrom(MergeBlock(m, p, b, k), if p < b then p else b, k + 1)
    else PushBlock(m, p, k)
  }

  function Insert(m: Memory, p: int, index: nat): Memory
  {
    if !InRange(m, p, index) then m
    else InsertFrom(m.(pages := m.pages[p := m.pages[p].(used := false, listIndex := index)]), p, index)
  }

  /** The upper half of the block of order `k + 1` at `p` is put into list `k`. */
  function SplitBlock(m: Memory, p: int, k: nat): Memory
  {
    var second := p + Pow2(k);
    if !InRange(m, second, k) then m
    else Memory(m.pages[second := m.pages[second].(inList := true, listIndex := k)],
                m.lists[k := m.lists[k] + [second]])
  }

  function SplitFrom(m: Memory, p: int, i: nat, index: nat): Memory
    decreases i
  {
    if i <= index then m else SplitFrom(SplitBlock(m, p, i - 1), p, i - 1, index)
  }

  lemma SplitFromStep(m: Memory, p: int, i: nat, index: nat)
    requires index < i
    ensures SplitFrom(m, p, i, index) == SplitFrom(SplitBlock(m, p, i - 1), p, i - 1, index)
  {
  }

  lemma InsertFromStep(m: Memory, p: int, k: nat)
    requires k + 1 < FREELISTS && LooksFree(m, p, k)
    ensures var b := BuddyOf(p, k);
      InsertFrom(m, p, k) == InsertFrom(MergeBlock(m, p, b, k), if p < b then p else b, k + 1)
  {
  }

  /** The last block of list `k` is taken out of it; the order of its page is changed only if a larger block was
      wanted. */
  function PopBlock(m: Memory, k: nat, index: nat): Memory
    requires k < |m.lists| && m.lists[k] != []
  {
    var p := m.lists[k][|m.lists[k]| - 1];
    if !InRange(m, p, k) then m
    else Memory(m.pages[p := Page(true, false, if k == index then m.pages[p].listIndex else index)],
                m.lists[k := m.lists[k][..|m.lists[k]| - 1]])
  }

  /** `freelist_get`, from list `k` on. */
  function GetFrom(m: Memory, index: nat, k: nat): (Memory, int)
    decreases |m.lists| - k
  {
    if k >= |m.lists| then (m, -1)
    else if m.lists[k] == [] then GetFrom(m, index, k + 1)
    else
      var p := m.lists[k][|m.lists[k]| - 1];
      (SplitFrom(PopBlock(m, k, index), p, k, index), p)
  }

  /** The loop of `pmalloc_add_mem` over the orders. */
  function LargestFrom(first: int, count: int, i: int, k: nat): (r: nat)
    ensures r <= k
  {
    if k == 0 || ((first + i) % Pow2(k) == 0 && count - i >= Pow2(k)) then k else LargestFrom(first, count, i, k - 1)
  }

  function LargestOrder(first: int, count: int, i: int): (k: nat)
    ensures k < FREELISTS
  {
    LargestFrom(first, count, i, FREELISTS - 1)
  }

  /** A block of order `k` at `i` is put into its list. */
  function CarveBlock(m: Memory, i: int, k: nat): Memory
  {
    if !InRange(m, i, k) then m
    else Memory(m.pages[i := m.pages[i].(listIndex := k, inList := true)], m.lists[k := m.lists[k] + [i]])
  }

  /** The loop of `pmalloc_add_mem` over the free pages. */
  function CarveFrom(first: int, count: int, m: Memory, i: int): Memory
    decreases count - i
  {
    if i >= count then m
    else
      var k := LargestOrder(first, count, i);
      CarveFrom(first, count, CarveBlock(m, i, k), i + Pow2(k))
  }

  function Blank(count: nat): Memory
  {
    Memory(seq(count, i => Page(false, false, FREELISTS)), seq(FREELISTS, k => []))
  }

  /** What `pmalloc_add_mem` makes of `count` free pages of which the first has page number `first`. */
  function Carve(first: int, count: nat): Memory
  {
    CarveFrom(first, count, Blank(count), 0)
  }

  // ---------------------------------------------------------------- the operations keep the books

  lemma NotFree(pages: seq<Page>, head: seq<int>, order: seq<nat>, page: int, buddy: int, k: nat)
    requires Flagged(pages, head, order, page) && LooseAt(pages, head, order, page, k)
    requires buddy < 0 || buddy >= |pages| || pages[buddy].used || pages[buddy].listIndex != k
    ensures !FreeBlock(pages, head, order, buddy, k)
  {
  }

  /** The page of the buddy tells the truth: it looks free if and only if it starts a free block of the same order. */
  lemma LooksFreeIsFree(v: nat, m: Memory, head: seq<int>, order: seq<nat>, live: map<int, int>, p: int, k: nat)
    requires Rough(m.pages, m.lists, head, order, live, p) && NearlyAligned(v, m.pages, head, order)
    requires LooseAt(m.pages, head, order, p, k) && k + 1 < FREELISTS
    ensures LooksFree(m, p, k) <==> FreeBlock(m.pages, head, order, BuddyOf(p, k), k)
    ensures LooksFree(m, p, k) ==> Joined(v, p, BuddyOf(p, k), k)
  {
    if LooksFree(m, p, k) {
      FreeBeside(v, m.pages, head, order, p, BuddyOf(p, k), k);
    } else {
      NotFree(m.pages, head, order, p, BuddyOf(p, k), k);
    }
  }

  /** With units of how many pages the blocks are nearly aligned. */
  function UnitOf(c: Promise): nat { if c.Nearly? then c.v else 13 }

  lemma KeptIsNearly(c: Promise, pages: seq<Page>, head: seq<int>, order: seq<nat>)
    requires |pages| == |head| == |order| && Headed(head, order) && Kept(c, pages, head, order) && !c.ByAddress?
    ensures NearlyAligned(UnitOf(c), pages, head, order)
  {
    if c.Merged? {
      AlignedIsNearly(pages, head, order);
    }
  }

  /** The loose block at `p` and its free buddy become one. */
  lemma MergeRound(c: Promise, m: Memory, head: seq<int>, order: seq<nat>, live: map<int, int>, p: int, b: int, a: int,
                   k: nat)
    returns (m': Memory, head': seq<int>, order': seq<nat>)
    requires Rough(m.pages, m.lists, head, order, live, p) && LooseAt(m.pages, head, order, p, k)
    requires Kept(c, m.pages, head, order) && !c.ByAddress? && k + 1 < FREELISTS && a == if p < b then p else b
    requires FreeBlock(m.pages, head, order, b, k) && Joined(UnitOf(c), p, b, k)
    ensures m' == MergeBlock(m, p, b, k) && |m'.pages| == |m.pages|
    ensures Rough(m'.pages, m'.lists, head', order', live, a) && LooseAt(m'.pages, head', order', a, k + 1)
    ensures Kept(c, m'.pages, head', order')
  {
    head', order' := MergeTiling(head, order, a, k);
    var pages', lists' := MergeRough(m.pages, m.lists, head, order, live, p, b, a, k, head', order');
    m' := Memory(pages', lists');
    MergeKept(c, m.pages, head, order, p, b, a, k, pages', head', order');
  }

  /** One round of the loop of `freelist_insert` that merges. */
  lemma InsertRound(c: Promise, m: Memory, head: seq<int>, order: seq<nat>, live: map<int, int>, p: int, k: nat)
    returns (m': Memory, a: int, head': seq<int>, order': seq<nat>)
    requires Rough(m.pages, m.lists, head, order, live, p) && LooseAt(m.pages, head, order, p, k)
    requires Kept(c, m.pages, head, order) && !c.ByAddress? && k + 1 < FREELISTS && LooksFree(m, p, k)
    ensures InsertFrom(m, p, k) == InsertFrom(m', a, k + 1) && |m'.pages| == |m.pages|
    ensures Rough(m'.pages, m'.lists, head', order', live, a) && LooseAt(m'.pages, head', order', a, k + 1)
    ensures Kept(c, m'.pages, head', order')
  {
    var b := BuddyOf(p, k);
    a := if p < b then p else b;
    KeptIsNearly(c, m.pages, head, order);
    LooksFreeIsFree(UnitOf(c), m, head, order, live, p, k);
    m', head', order' := MergeRound(c, m, head, order, live, p, b, a, k);
    InsertFromStep(m, p, k);
  }

  lemma MergeKept(c: Promise, pages: seq<Page>, head: seq<int>, order: seq<nat>, p: int, b: int, a: int, k: nat,
                  pages': seq<Page>, head': seq<int>, order': seq<nat>)
    requires Flagged(pages, head, order, p) && Kept(c, pages, head, order) && LooseAt(pages, head, order, p, k)
    requires !c.ByAddress?
    requires FreeBlock(pages, head, order, b, k) && Joined(UnitOf(c), p, b, k) && a == if p < b then p else b
    requires MergedAt(head, order, head', order', a, k) && Headed(head', order')
    requires pages' == MergedPages(pages, b, a, k)
    requires c.Merged? ==> Coalesced(pages', head', order')
    ensures Kept(c, pages', head', order')
  {
    if c.Merged? {
      MergeMultiples(head, order, head', order', a, k);
    } else {
      MergeNearly(c.v, pages, head, order, p, b, a, k, pages', head', order');
    }
  }

  /** The loop of `freelist_insert` ends: the block goes into its list. */
  lemma InsertEnd(c: Promise, m: Memory, head: seq<int>, order: seq<nat>, live: map<int, int>, p: int, k: nat)
    returns (m': Memory)
    requires Rough(m.pages, m.lists, head, order, live, p) && LooseAt(m.pages, head, order, p, k) && k < FREELISTS
    requires Kept(c, m.pages, head, order) && !(k + 1 < FREELISTS && LooksFree(m, p, k))
    ensures m' == InsertFrom(m, p, k) && |m'.pages| == |m.pages|
    ensures Rough(m'.pages, m'.lists, head, order, live, -1) && Kept(c, m'.pages, head, order)
  {
    if k + 1 < FREELISTS {
      NotFree(m.pages, head, order, p, BuddyOf(p, k), k);
    }
    var pages', lists' := PushRough(c, m.pages, m.lists, head, order, live, p, k);
    m' := Memory(pages', lists');
  }

  /** The loop of `freelist_insert` goes on with the block at `a`, or it ends. */
  lemma InsertOnce(c: Promise, m: Memory, head: seq<int>, order: seq<nat>, live: map<int, int>, p: int, k: nat,
                   m': Memory)
    returns (more: bool, next: Memory, a: int, head': seq<int>, order': seq<nat>)
    requires Rough(m.pages, m.lists, head, order, live, p) && LooseAt(m.pages, head, order, p, k) && k < FREELISTS
    requires Kept(c, m.pages, head, order) && !c.ByAddress? && m' == InsertFrom(m, p, k)
    ensures |next.pages| == |m.pages| && m' == if more then InsertFrom(next, a, k + 1) else next
    ensures Rough(next.pages, next.lists, head', order', live, if more then a else -1)
    ensures Kept(c, next.pages, head', order')
    ensures more ==> LooseAt(next.pages, head', order', a, k + 1) && k + 1 < FREELISTS
  {
    more := k + 1 < FREELISTS && LooksFree(m, p, k);
    if more {
      next, a, head', order' := InsertRound(c, m, head, order, live, p, k);
    } else {
      next := InsertEnd(c, m, head, order, live, p, k);
      a, head', order' := p, head, order;
    }
  }

  lemma {:induction false} InsertFromRough(c: Promise, m: Memory, head: seq<int>, order: seq<nat>, live: map<int, int>,
                                           p: int, k: nat, m': Memory)
    returns (head': seq<int>, order': seq<nat>)
    requires Rough(m.pages, m.lists, head, order, live, p) && LooseAt(m.pages, head, order, p, k) && k < FREELISTS
    requires Kept(c, m.pages, head, order) && !c.ByAddress? && m' == InsertFrom(m, p, k)
    ensures |m'.pages| == |m.pages|
    ensures Rough(m'.pages, m'.lists, head', order', live, -1) && Kept(c, m'.pages, head', order')
    decreases FREELISTS - k
  {
    var more, next, a;
    more, next, a, head', order' := InsertOnce(c, m, head, order, live, p, k, m');
    if more {
      head', order' := InsertFromRough(c, next, head', order', live, a, k + 1, m');
    }
  }

  /** `freelist_insert` of a live block: exactly it stops being live, and what the operations keep is kept. */
  lemma InsertRough(c: Promise, m: Memory, head: seq<int>, order: seq<nat>, live: map<int, int>, p: int)
    returns (head': seq<int>, order': seq<nat>)
    requires Rough(m.pages, m.lists, head, order, live, -1) && Kept(c, m.pages, head, order) && !c.ByAddress?
    requires p in live
    ensures 0 <= live[p] < FREELISTS && 0 <= p < |m.pages|
    ensures var m' := Insert(m, p, live[p]);
      && Rough(m'.pages, m'.lists, head', order', live - {p}, -1) && |m'.pages| == |m.pages|
      && Kept(c, m'.pages, head', order')
  {
    var rest := ReturnRough(m.pages, m.lists, head, order, live, p);
    var pages' := LooseRough(c, m.pages, m.lists, head, order, rest, p);
    assert order[p] < FREELISTS;
    var m' := InsertFrom(Memory(pages', m.lists), p, live[p]);
    head', order' := InsertFromRough(c, Memory(pages', m.lists), head, order, rest, p, live[p], m');
    assert Insert(m, p, live[p]) == m';
  }

  /** In an aligned region the block is merged as far as possible. */
  lemma InsertBooks(m: Memory, head: seq<int>, order: seq<nat>, live: map<int, int>, p: int)
    returns (head': seq<int>, order': seq<nat>)
    requires Books(m.pages, m.lists, head, order, live, -1) && p in live
    ensures 0 <= live[p] < FREELISTS && 0 <= p < |m.pages|
    ensures var m' := Insert(m, p, live[p]);
      Books(m'.pages, m'.lists, head', order', live - {p}, -1) && |m'.pages| == |m.pages|
  {
    head', order' := InsertRough(Merged, m, head, order, live, p);
  }

  /** One round of the loop that splits. */
  lemma SplitRound(c: Promise, m: Memory, head: seq<int>, order: seq<nat>, live: map<int, int>, p: int, i: nat,
                   index: nat)
    returns (m': Memory, head': seq<int>, order': seq<nat>)
    requires Rough(m.pages, m.lists, head, order, live, p) && 0 <= p < |head| && head[p] == p && order[p] == i
    requires index < i && m.pages[p] == Page(true, false, index)
    requires Kept(c, m.pages, head, order) && (c.ByAddress? ==> c.k <= index)
    ensures SplitFrom(m, p, i, index) == SplitFrom(m', p, i - 1, index) && |m'.pages| == |m.pages|
    ensures Rough(m'.pages, m'.lists, head', order', live, p) && Kept(c, m'.pages, head', order')
    ensures head'[p] == p && order'[p] == i - 1 && m'.pages[p] == Page(true, false, index)
  {
    var pages', lists';
    pages', lists', head', order' := SplitRough(c, m.pages, m.lists, head, order, live, p, i - 1);
    m' := SplitStep(m, p, i, index, pages', lists');
  }

  lemma SplitStep(m: Memory, p: int, i: nat, index: nat, pages': seq<Page>, lists': seq<seq<int>>) returns (m': Memory)
    requires index < i <= |m.lists| && 0 <= p && p + Pow2(i - 1) < |m.pages|
    requires var b := p + Pow2(i - 1);
      && pages' == m.pages[b := m.pages[b].(inList := true, listIndex := i - 1)]
      && lists' == m.lists[i - 1 := m.lists[i - 1] + [b]]
    ensures m' == Memory(pages', lists') && SplitFrom(m, p, i, index) == SplitFrom(m', p, i - 1, index)
  {
    m' := Memory(pages', lists');
    assert SplitBlock(m, p, i - 1) == m';
    SplitFromStep(m, p, i, index);
  }

  lemma {:induction false} SplitFromRough(c: Promise, m: Memory, head: seq<int>, order: seq<nat>, live: map<int, int>,
                                          p: int, i: nat, index: nat)
    returns (m': Memory, head': seq<int>, order': seq<nat>)
    requires Rough(m.pages, m.lists, head, order, live, p) && 0 <= p < |head| && head[p] == p && order[p] == i
    requires index <= i && m.pages[p] == Page(true, false, index)
    requires Kept(c, m.pages, head, order) && (c.ByAddress? ==> c.k <= index)
    ensures m' == SplitFrom(m, p, i, index) && |m'.pages| == |m.pages|
    ensures Rough(m'.pages, m'.lists, head', order', live, p) && Kept(c, m'.pages, head', order')
    ensures head'[p] == p && order'[p] == index && m'.pages[p] == Page(true, false, index)
    decreases i
  {
    if i > index {
      var next, nextHead, nextOrder := SplitRound(c, m, head, order, live, p, i, index);
      m', head', order' := SplitFromRough(c, next, nextHead, nextOrder, live, p, i - 1, index);
    } else {
      m', head', order' := m, head, order;
    }
  }

  /** The last block of list `k` is cut down to order `index` and handed out. */
  lemma GetFound(c: Promise, m: Memory, head: seq<int>, order: seq<nat>, live: map<int, int>, index: nat, k: nat)
    returns (m': Memory, p: int, head': seq<int>, order': seq<nat>)
    requires Rough(m.pages, m.lists, head, order, live, -1) && index <= k < FREELISTS && m.lists[k] != []
    requires Kept(c, m.pages, head, order) && (c.ByAddress? ==> c.k <= index)
    ensures (m', p) == GetFrom(m, index, k) && p != -1 && p !in live && |m'.pages| == |m.pages|
    ensures Rough(m'.pages, m'.lists, head', order', live[p := index], -1) && Kept(c, m'.pages, head', order')
  {
    var pages', lists';
    p, pages', lists' := PopRough(c, m.pages, m.lists, head, order, live, k, index);
    m' := Memory(pages', lists');
    assert PopBlock(m, k, index) == m';
    m', head', order' := SplitFromRough(c, m', head, order, live, p, k, index);
    var live' := GrantRough(m'.pages, m'.lists, head', order', live, p);
  }

  /** `freelist_get`: a new live block of exactly the order; or all lists from it on are empty, and nothing changes. */
  lemma {:induction false} GetRough(c: Promise, m: Memory, head: seq<int>, order: seq<nat>, live: map<int, int>,
                                    index: nat, k: nat)
    returns (m': Memory, p: int, head': seq<int>, order': seq<nat>)
    requires Rough(m.pages, m.lists, head, order, live, -1) && index <= k <= FREELISTS
    requires Kept(c, m.pages, head, order) && (c.ByAddress? ==> c.k <= index)
    ensures (m', p) == GetFrom(m, index, k) && |m'.pages| == |m.pages|
    ensures p == -1 ==> m' == m && head' == head && order' == order && NoneFrom(m.lists, k)
    ensures p != -1 ==> p !in live && Rough(m'.pages, m'.lists, head', order', live[p := index], -1)
    ensures Kept(c, m'.pages, head', order')
    decreases FREELISTS - k
  {
    if k == FREELISTS {
      m', p, head', order' := m, -1, head, order;
    } else if m.lists[k] == [] {
      m', p, head', order' := GetRough(c, m, head, order, live, index, k + 1);
    } else {
      m', p, head', order' := GetFound(c, m, head, order, live, index, k);
    }
  }

  /** The lists from `k` on are empty. */
  predicate NoneFrom(lists: seq<seq<int>>, k: nat)
  {
    forall j {:trigger lists[j]} :: k <= j < |lists| ==> lists[j] == []
  }

  predicate LargestAt(first: int, count: int, i: int, k: nat)
  {
    && k < FREELISTS && (first + i) % Pow2(k) == 0 && i + Pow2(k) <= count
    && (k + 1 < FREELISTS ==> (first + i) % Pow2(k + 1) != 0 || i + Pow2(k + 1) > count)
  }

  lemma {:induction false} LargestFromIsLargest(first: int, count: int, i: int, k: nat)
    requires 0 <= i < count && k < FREELISTS
    requires k + 1 < FREELISTS ==> (first + i) % Pow2(k + 1) != 0 || i + Pow2(k + 1) > count
    ensures LargestAt(first, count, i, LargestFrom(first, count, i, k))
    decreases k
  {
    if k == 0 {
      assert Pow2(0) == 1;
    } else if !((first + i) % Pow2(k) == 0 && count - i >= Pow2(k)) {
      LargestFromIsLargest(first, count, i, k - 1);
    }
  }

  /** The order chosen for page `i` is the largest that fits by address and by what is left. */
  lemma LargestOrderIsLargest(first: int, count: int, i: int)
    requires 0 <= i < count
    ensures LargestAt(first, count, i, LargestOrder(first, count, i))
  {
    LargestFromIsLargest(first, count, i, FREELISTS - 1);
  }

  /** If the first page is aligned to the largest block, a block fits by address exactly if it fits by page number. */
  lemma LargestByPage(first: int, count: nat, i: int, k: nat)
    requires Multiple(first, Top(count)) && 0 <= i && LargestAt(first, count, i, k)
    ensures Multiple(i, k) && (k + 1 < FREELISTS ==> !Multiple(i, k + 1) || i + Pow2(k + 1) > count)
  {
    FitsTop(count, k);
    AddressMod(first, Top(count), i, k);
    if k + 1 < FREELISTS && i + Pow2(k + 1) <= count {
      FitsTop(count, k + 1);
      AddressMod(first, Top(count), i, k + 1);
    }
  }

  /** Every block is the largest that fits in its place by address. */
  ghost predicate CarvedBy(first: int, count: int, head: seq<int>, order: seq<nat>)
    requires |head| == |order|
  {
    forall h {:trigger order[h]} :: 0 <= h < |head| && head[h] == h ==> LargestAt(first, count, h, order[h])
  }

  /** The pages inside blocks are as they were made. */
  ghost predicate Untouched(pages: seq<Page>, head: seq<int>)
    requires |pages| == |head|
  {
    forall q {:trigger pages[q]} :: 0 <= q < |pages| && head[q] != q ==> pages[q].listIndex == FREELISTS
  }

  /** The pages before `i` are carved; the others have not been touched. */
  ghost predicate Carving(first: int, count: nat, m: Memory, i: int, head: seq<int>, order: seq<nat>)
  {
    && 0 <= i <= count == |m.pages| && |head| == i && Rough(m.pages[..i], m.lists, head, order, map[], -1)
    && (forall p {:trigger m.pages[p]} :: i <= p < count ==> m.pages[p] == Page(false, false, FREELISTS))
    && CarvedBy(first, count, head, order) && Untouched(m.pages[..i], head)
  }

  lemma ExtendedCarvedBy(first: int, count: int, head: seq<int>, order: seq<nat>, head': seq<int>, order': seq<nat>,
                         k: nat)
    requires Extended(head, order, head', order', k) && CarvedBy(first, count, head, order)
    requires LargestAt(first, count, |head|, k)
    ensures CarvedBy(first, count, head', order')
  {
    forall h {:trigger order'[h]} | 0 <= h < |head'| && head'[h] == h ensures LargestAt(first, count, h, order'[h]) {
      assert h < |head| ==> order[h] == order'[h] && head[h] == h;
    }
  }

  lemma ExtendedUntouched(pages: seq<Page>, head: seq<int>, order: seq<nat>, piece: seq<Page>, head': seq<int>,
                          order': seq<nat>, k: nat)
    requires |pages| == |head| && Extended(head, order, head', order', k) && Untouched(pages, head)
    requires OneBlock(piece, k)
    ensures Untouched(pages + piece, head')
  {
    var pages' := pages + piece;
    assert forall p {:trigger pages'[p]} :: 0 <= p < |pages'| ==>
      pages'[p] == if p < |pages| then pages[p] else piece[p - |pages|];
  }

  lemma CarvingStep(first: int, count: nat, m: Memory, i: int, head: seq<int>, order: seq<nat>, k: nat)
    returns (m': Memory, head': seq<int>, order': seq<nat>)
    requires Carving(first, count, m, i, head, order) && i < count && LargestAt(first, count, i, k)
    ensures m' == CarveBlock(m, i, k) && Carving(first, count, m', i + Pow2(k), head', order')
  {
    var piece := CarvePiece(m.pages, i, k);
    var lists';
    head', order', lists' := CarveRough(m.pages[..i], m.lists, head, order, k, piece);
    m' := CarveBlock(m, i, k);
    assert m'.pages[..i + Pow2(k)] == m.pages[..i] + piece && m'.lists == lists';
    ExtendedCarvedBy(first, count, head, order, head', order', k);
    ExtendedUntouched(m.pages[..i], head, order, piece, head', order', k);
  }

  /** One round of the loop. */
  lemma CarvingRound(first: int, count: nat, m: Memory, i: int, head: seq<int>, order: seq<nat>)
    returns (m': Memory, i': int, head': seq<int>, order': seq<nat>)
    requires Carving(first, count, m, i, head, order) && i < count
    ensures CarveFrom(first, count, m, i) == CarveFrom(first, count, m', i') && i < i'
    ensures Carving(first, count, m', i', head', order')
  {
    var k := LargestOrder(first, count, i);
    LargestOrderIsLargest(first, count, i);
    m', head', order' := CarvingStep(first, count, m, i, head, order, k);
    i' := i + Pow2(k);
  }

  lemma {:induction false} CarvingAll(first: int, count: nat, m: Memory, i: int, head: seq<int>, order: seq<nat>)
    returns (m': Memory, head': seq<int>, order': seq<nat>)
    requires Carving(first, count, m, i, head, order)
    ensures m' == CarveFrom(first, count, m, i) && Carving(first, count, m', count, head', order')
    decreases count - i
  {
    if i < count {
      var next, j, nextHead, nextOrder := CarvingRound(first, count, m, i, head, order);
      m', head', order' := CarvingAll(first, count, next, j, nextHead, nextOrder);
    } else {
      m', head', order' := m, head, order;
    }
  }

  lemma NoPages(pages: seq<Page>, lists: seq<seq<int>>, head: seq<int>, order: seq<nat>, live: map<int, int>)
    requires |pages| == |head| == |order| == 0 && |live| == 0
    requires |lists| == FREELISTS && forall k {:trigger lists[k]} :: 0 <= k < FREELISTS ==> |lists[k]| == 0
    ensures Books(pages, lists, head, order, live, -1)
  {
    assert Listed(lists, pages, head, order);
  }

  /** The carved blocks tile the region, are all free, and each is the largest that fits in its place by address. */
  lemma CarveTiles(first: int, count: nat) returns (head: seq<int>, order: seq<nat>)
    ensures var m := Carve(first, count);
      && Rough(m.pages, m.lists, head, order, map[], -1) && |m.pages| == count
      && CarvedBy(first, count, head, order) && Untouched(m.pages, head)
  {
    var m := Blank(count);
    NoPages(m.pages[..0], m.lists, [], [], map[]);
    var carved;
    carved, head, order := CarvingAll(first, count, m, 0, [], []);
    assert carved.pages[..count] == carved.pages;
  }

  /** If the first page is aligned to the largest block, each carved block starts at a multiple of its size, is as large
      as its place allows, and no two buddies are left unmerged. */
  lemma CarveAligned(first: int, count: nat, pages: seq<Page>, head: seq<int>, order: seq<nat>)
    requires |pages| == |head| == |order| == count && Headed(head, order) && CarvedBy(first, count, head, order)
    requires Multiple(first, Top(count))
    ensures Strict(pages, head, order) && Greedy(head, order, count)
  {
    forall h {:trigger order[h]} | 0 <= h < |head| && head[h] == h
      ensures Multiple(h, order[h])
      ensures order[h] + 1 < FREELISTS ==> !Multiple(h, order[h] + 1) || h + Pow2(order[h] + 1) > count
    {
      LargestByPage(first, count, h, order[h]);
    }
    GreedyIsCoalesced(pages, head, order);
  }

  lemma GreedyIsCoalesced(pages: seq<Page>, head: seq<int>, order: seq<nat>)
    requires |pages| == |head| == |order| && Headed(head, order) && AtMultiples(head, order)
    requires Greedy(head, order, |head|)
    ensures Coalesced(pages, head, order)
  {
    forall h {:trigger order[h]}
      | 0 <= h < |pages| && FreeBlock(pages, head, order, h, order[h]) && order[h] + 1 < FREELISTS
      ensures !FreeBlock(pages, head, order, BuddyOf(h, order[h]), order[h])
    {
      var k := order[h];
      var b := BuddyOf(h, k);
      Halves(h, k);
      assert 0 <= b < |pages| ==> order[b] >= 0;
    }
  }

  /** If the first page is aligned to units of 2^v pages and not to two of them, and there are fewer than seven units,
      or two of them are the largest block, the carved blocks are nearly aligned. */
  lemma CarveNearly(first: int, count: nat, v: nat, pages: seq<Page>, head: seq<int>, order: seq<nat>)
    requires |pages| == |head| == |order| == count && Headed(head, order) && CarvedBy(first, count, head, order)
    requires Untouched(pages, head) && Multiple(first, v) && !Multiple(first, v + 1)
    requires v == 12 || (v <= 11 && count < 7 * Pow2(v))
    ensures NearlyAligned(v, pages, head, order)
  {
    var u := Pow2(v);
    forall h {:trigger MayStart(v, h, order[h])} | 0 <= h < |head| && head[h] == h ensures MayStart(v, h, order[h]) {
      CarvedIsOff(first, count, v, h, order[h]);
    }
    if v <= 11 && u < |head| {
      SecondUnit(first, count, v, head, order);
    }
  }

  lemma CarvedIsOff(first: int, count: nat, v: nat, h: int, k: nat)
    requires 0 <= h && LargestAt(first, count, h, k) && Multiple(first, v) && !Multiple(first, v + 1)
    requires v == 12 || (v <= 11 && count < 7 * Pow2(v))
    ensures MayStart(v, h, k)
  {
    MultipleIsMod(first + h, k);
    if k <= v {
      MultipleDown(first, v, k);
      MultipleAdd(first, h, k);
    } else {
      OddUnit(first, v, h, k);
      if v <= 11 {
        FewUnits(v, h, k);
      }
    }
  }

  /** Below seven units, blocks of more than one of them that start at odd units. */
  lemma FewUnits(v: nat, h: int, k: nat)
    requires v <= 11 && v < k && 0 <= h && Multiple(h, v) && !Multiple(h, v + 1) && h + Pow2(k) < 7 * Pow2(v)
    ensures Off(v, h, k)
  {
    var c := Units(h, v, 7);
    UnitParity(c, v);
    FewOddUnits(v, c, k);
    OffAt(v, h, c, k);
  }

  lemma FewOddUnits(v: nat, c: int, k: nat)
    requires v <= 11 && v < k && 0 <= c && c % 2 == 1 && c * Pow2(v) + Pow2(k) < 7 * Pow2(v)
    ensures (c == 1 && (k == v + 1 || k == v + 2)) || (c == 3 && k == v + 1)
  {
    var u := Pow2(v);
    assert Pow2(v + 1) == 2 * u && Pow2(v + 2) == 4 * u && Pow2(v + 3) == 8 * u;
    Pow2Monotone(v + 1, k);
    if k >= v + 3 {
      Pow2Monotone(v + 3, k);
    }
    FewOdd(u, c, Pow2(k));
  }

  lemma OffAt(v: nat, h: int, c: int, k: nat)
    requires v <= 11 && h == c * Pow2(v) && ((c == 1 && (k == v + 1 || k == v + 2)) || (c == 3 && k == v + 1))
    ensures Off(v, h, k)
  {
  }

  lemma FewOdd(u: nat, c: int, size: nat)
    requires u > 0 && 0 <= c && c % 2 == 1 && c * u + size < 7 * u && 2 * u <= size
    ensures (c == 1 || c == 3) && size < 6 * u && (4 * u <= size ==> c == 1)
  {
    if c >= 5 {
      SmallerProduct(5, c, u);
    }
    assert 0 <= c * u;
  }

  /** A block at a multiple of two units by address starts at an odd unit. */
  lemma OddUnit(first: int, v: nat, h: int, k: nat)
    requires Multiple(first, v) && !Multiple(first, v + 1) && Multiple(first + h, k) && v < k
    ensures Multiple(h, v) && !Multiple(h, v + 1)
  {
    MultipleDown(first + h, k, v + 1);
    MultipleDown(first + h, v + 1, v);
    MultipleAdd(first, h, v);
    if Multiple(h, v + 1) {
      MultipleAdd(h, first, v + 1);
    }
  }

  /** A block starts at the second unit. */
  lemma SecondUnit(first: int, count: nat, v: nat, head: seq<int>, order: seq<nat>)
    requires |head| == |order| == count && Headed(head, order) && CarvedBy(first, count, head, order)
    requires Multiple(first, v) && !Multiple(first, v + 1) && Pow2(v) < count
    ensures head[Pow2(v)] == Pow2(v)
  {
    var u := Pow2(v);
    var h := head[u];
    var k := order[h];
    MultipleIsMod(first + h, k);
    UnitMultiple(1, v, 0);
    MultipleAdd(first, u, v);
    if k <= v {
      MultipleDown(first + u, v, k);
      NearMultiples(first + h, first + u, k);
    } else {
      OddUnit(first, v, h, k);
      MultipleZero(v);
      MultipleZero(v + 1);
      if h < u {
        NearMultiples(0, h, v);
      }
    }
  }

  /** Carved blocks are aligned by their addresses. */
  lemma CarveByAddress(first: int, count: nat, k: nat, head: seq<int>, order: seq<nat>)
    requires |head| == |order| == count && Headed(head, order) && CarvedBy(first, count, head, order) && k < FREELISTS
    ensures AlignedByAddress(first, k, head, order)
  {
    forall h {:trigger MultipleAt(first, h, order[h])} | 0 <= h < |head| && head[h] == h
      ensures MultipleAt(first, h, order[h])
    {
      MultipleIsMod(first + h, order[h]);
    }
    forall i {:trigger MultipleAt(first, i, k)} | 0 <= i && i + Pow2(k) <= |head| && MultipleAt(first, i, k)
      ensures order[head[i]] >= k
    {
      var j := order[head[i]];
      assert MultipleAt(first, head[i], j);
      if j < k {
        MultipleDown(first + i, k, j);
        NearMultiples(first + head[i], first + i, j);
        MultipleDown(first + i, k, j + 1);
        MultipleIsMod(first + i, j + 1);
        Pow2Monotone(j + 1, k);
      }
    }
  }

  // ---------------------------------------------------------------- every run

  /** `pmalloc` of `n` pages, and `pfree` of `n` pages at `page`. */
  datatype Call = Alloc(n: int) | Free(page: int, n: int)

  /** The asserts of `pfree`. */
  predicate Freeable(m: Memory, p: int, n: int)
  {
    0 < n <= 8192 && 0 <= p < |m.pages| && m.pages[p].used && m.pages[p].listIndex == SizeToIndex(n)
  }

  /** What a call does; a free that the allocator asserts away, and a request larger than the largest list, do
      nothing. */
  function Step(m: Memory, call: Call): Memory
  {
    match call
    case Alloc(n) => if 0 < n <= 8192 then GetFrom(m, SizeToIndex(n), SizeToIndex(n)).0 else m
    case Free(p, n) => if Freeable(m, p, n) then Insert(m, p, SizeToIndex(n)) else m
  }

  function Run(first: int, count: nat, calls: seq<Call>): Memory
  {
    if calls == [] then Carve(first, count)
    else Step(Run(first, count, calls[..|calls| - 1]), calls[|calls| - 1])
  }

  lemma RunStep(first: int, count: nat, calls: seq<Call>, call: Call)
    ensures Run(first, count, calls + [call]) == Step(Run(first, count, calls), call)
  {
    assert (calls + [call])[..|calls|] == calls;
  }

  lemma StepRough(c: Promise, m: Memory, head: seq<int>, order: seq<nat>, live: map<int, int>, call: Call)
    returns (head': seq<int>, order': seq<nat>, live': map<int, int>)
    requires Rough(m.pages, m.lists, head, order, live, -1) && Kept(c, m.pages, head, order) && !c.ByAddress?
    ensures var m' := Step(m, call);
      && Rough(m'.pages, m'.lists, head', order', live', -1) && Kept(c, m'.pages, head', order')
      && |m'.pages| == |m.pages|
  {
    head', order', live' := head, order, live;
    match call
    case Alloc(n) =>
      if 0 < n <= 8192 {
        SizeFits(n);
        var m', p;
        m', p, head', order' := GetRough(c, m, head, order, live, SizeToIndex(n), SizeToIndex(n));
        live' := if p == -1 then live else live[p := SizeToIndex(n)];
      }
    case Free(p, n) =>
      if Freeable(m, p, n) {
        assert p in live && live[p] == m.pages[p].listIndex;
        head', order' := InsertRough(c, m, head, order, live, p);
        live' := live - {p};
      }
  }

  /** What the carving promises is kept in every run. */
  lemma {:induction false} RunRough(c: Promise, first: int, count: nat, calls: seq<Call>, head: seq<int>,
                                    order: seq<nat>)
    returns (head': seq<int>, order': seq<nat>, live: map<int, int>)
    requires var m := Carve(first, count);
      Rough(m.pages, m.lists, head, order, map[], -1) && |m.pages| == count && Kept(c, m.pages, head, order)
    requires !c.ByAddress?
    ensures var m := Run(first, count, calls);
      Rough(m.pages, m.lists, head', order', live, -1) && |m.pages| == count && Kept(c, m.pages, head', order')
    decreases |calls|
  {
    if calls == [] {
      head', order', live := head, order, map[];
    } else {
      var before := calls[..|calls| - 1];
      head', order', live := RunRough(c, first, count, before, head, order);
      head', order', live := StepRough(c, Run(first, count, before), head', order', live, calls[|calls| - 1]);
    }
  }

  /** In every run of a region whose first page is aligned to the largest block, the books are in order. */
  lemma RunBooks(first: int, count: nat, calls: seq<Call>)
    returns (head: seq<int>, order: seq<nat>, live: map<int, int>)
    requires Multiple(first, Top(count))
    ensures var m := Run(first, count, calls); Books(m.pages, m.lists, head, order, live, -1) && |m.pages| == count
  {
    head, order := CarveTiles(first, count);
    CarveAligned(first, count, Carve(first, count).pages, head, order);
    head, order, live := RunRough(Merged, first, count, calls, head, order);
  }

  /** The address of a block of order `k` at page `p` is a multiple of its size. */
  predicate AtAddress(first: int, p: int, k: int)
  {
    0 <= k && (first + p) % Pow2(k) == 0
  }

  /** The address of every block, free or handed out, is a multiple of its size. */
  predicate AtAddresses(first: int, m: Memory)
  {
    && (forall k, p {:trigger p in m.lists[k]} :: 0 <= k < |m.lists| && p in m.lists[k] ==> AtAddress(first, p, k))
    && (forall p {:trigger m.pages[p]} :: 0 <= p < |m.pages| && m.pages[p].used ==>
          AtAddress(first, p, m.pages[p].listIndex))
  }

  lemma BlockAtAddress(first: int, head: seq<int>, order: seq<nat>, p: int)
    requires Tiling(head, order) && Multiple(first, Top(|head|)) && 0 <= p < |head| && head[p] == p
    ensures AtAddress(first, p, order[p])
  {
    var k := order[p];
    FitsTop(|head|, k);
    AddressMod(first, Top(|head|), p, k);
  }

  lemma BooksAtAddresses(first: int, m: Memory, head: seq<int>, order: seq<nat>, live: map<int, int>)
    requires Books(m.pages, m.lists, head, order, live, -1) && Multiple(first, Top(|head|))
    ensures AtAddresses(first, m)
  {
    forall k, p {:trigger p in m.lists[k]} | 0 <= k < |m.lists| && p in m.lists[k] ensures AtAddress(first, p, k) {
      BlockAtAddress(first, head, order, p);
    }
    forall p {:trigger m.pages[p]} | 0 <= p < |m.pages| && m.pages[p].used
      ensures AtAddress(first, p, m.pages[p].listIndex)
    {
      BlockAtAddress(first, head, order, p);
    }
  }

  // ---------------------------------------------------------------- all pages handed out singly and freed again

  function Takes(size: int, n: nat): (calls: seq<Call>)
    ensures |calls| == n
  {
    if n == 0 then [] else Takes(size, n - 1) + [Alloc(size)]
  }

  function Gives(n: nat): (calls: seq<Call>)
    ensures |calls| == n
  {
    if n == 0 then [] else Gives(n - 1) + [Free(n - 1, 1)]
  }

  /** Numbers below `n` are `n` in number exactly if they are all of them. */
  lemma {:induction false} BelowCount(s: set<int>, n: nat)
    requires forall p {:trigger p in s} :: p in s ==> 0 <= p < n
    ensures |s| <= n && (|s| == n <==> forall p {:trigger p in s} :: 0 <= p < n ==> p in s)
    decreases n
  {
    if n > 0 {
      var t := s - {n - 1};
      BelowCount(t, n - 1);
      assert forall p {:trigger p in t} :: p in t <==> p in s && p != n - 1;
      if n - 1 in s {
        assert |s| == |t| + 1;
        forall p {:trigger p in s} | |s| == n && 0 <= p < n ensures p in s {
          assert p != n - 1 ==> p in t;
        }
        assert (forall p {:trigger p in s} :: 0 <= p < n ==> p in s) ==>
          (forall p {:trigger p in t} :: 0 <= p < n - 1 ==> p in t);
      } else {
        assert s == t;
      }
    } else {
      assert forall p {:trigger p in s} :: p !in s;
      assert s == {};
    }
  }

  /** The live blocks have order `k`. */
  ghost predicate AllOf(live: map<int, int>, k: nat)
  {
    forall p {:trigger p in live} :: p in live ==> live[p] == k
  }

  /** As long as not every page is live, there is a free block. */
  lemma SomeFree(m: Memory, head: seq<int>, order: seq<nat>, live: map<int, int>)
    requires Rough(m.pages, m.lists, head, order, live, -1) && AllOf(live, 0) && |live| < |m.pages|
    ensures !NoneFrom(m.lists, 0)
  {
    BelowCount(live.Keys, |m.pages|);
    assert |live.Keys| == |live|;
    var p :| 0 <= p < |m.pages| && p !in live.Keys;
    var h := head[p];
    assert order[h] >= 0;
    assert h !in live;
    assert FreeBlock(m.pages, head, order, h, order[h]);
    assert h in m.lists[order[h]];
  }

  lemma LargestSize()
    ensures Pow2(13) == 8192
  {
  }

  /** The order of a request for as many pages as a block has. */
  lemma SizeOfOrder(k: nat)
    requires k < FREELISTS
    ensures 0 < Pow2(k) <= 8192 && SizeToIndex(Pow2(k)) == k
  {
    LargestSize();
    Pow2Monotone(k, 13);
    SizeFits(Pow2(k));
    SameOrder(SizeToIndex(Pow2(k)), k);
  }

  lemma SameOrder(j: int, k: nat)
    requires 0 <= j && Pow2(k) <= Pow2(j) && (j > 0 ==> Pow2(j - 1) < Pow2(k))
    ensures j == k
  {
    if j < k {
      Pow2Monotone(j + 1, k);
    } else if j > k {
      Pow2Monotone(k, j - 1);
    }
  }

  /** One more block of order `k` is handed out, if there is one. */
  lemma TakeOne(first: int, k: nat, n: nat, m: Memory, head: seq<int>, order: seq<nat>, live: map<int, int>)
    returns (m': Memory, head': seq<int>, order': seq<nat>, live': map<int, int>)
    requires Rough(m.pages, m.lists, head, order, live, -1) && AlignedByAddress(first, k, head, order) && k < FREELISTS
    requires AllOf(live, k) && (|live| == n || NoneFrom(m.lists, k))
    ensures m' == Step(m, Alloc(Pow2(k))) && |m'.pages| == |m.pages|
    ensures Rough(m'.pages, m'.lists, head', order', live', -1) && AlignedByAddress(first, k, head', order')
    ensures AllOf(live', k) && (|live'| == n + 1 || NoneFrom(m'.lists, k))
  {
    SizeOfOrder(k);
    var p;
    m', p, head', order' := GetRough(ByAddress(first, k), m, head, order, live, k, k);
    if NoneFrom(m.lists, k) {
      NothingToGet(m, k, k);
    }
    live' := if p == -1 then live else live[p := k];
  }

  /** Blocks of order `k` are handed out until there are `n` of them, or none is left. */
  lemma {:induction false} TakeMany(first: int, count: nat, k: nat, n: nat)
    returns (head: seq<int>, order: seq<nat>, live: map<int, int>)
    requires k < FREELISTS
    ensures var m := Run(first, count, Takes(Pow2(k), n));
      && Rough(m.pages, m.lists, head, order, live, -1) && |m.pages| == count && AlignedByAddress(first, k, head, order)
      && AllOf(live, k) && (|live| == n || NoneFrom(m.lists, k))
    decreases n
  {
    if n == 0 {
      head, order := CarveTiles(first, count);
      CarveByAddress(first, count, k, head, order);
      live := map[];
    } else {
      head, order, live := TakeMany(first, count, k, n - 1);
      RunStep(first, count, Takes(Pow2(k), n - 1), Alloc(Pow2(k)));
      var m;
      m, head, order, live := TakeOne(first, k, n - 1, Run(first, count, Takes(Pow2(k), n - 1)), head, order, live);
    }
  }

  lemma {:induction false} NothingToGet(m: Memory, index: nat, k: nat)
    requires NoneFrom(m.lists, k)
    ensures GetFrom(m, index, k) == (m, -1)
    decreases |m.lists| - k
  {
    if k < |m.lists| {
      NothingToGet(m, index, k + 1);
    }
  }

  /** All pages are handed out singly: whatever the first page, the books are then in order. */
  lemma TakeAll(first: int, count: nat) returns (head: seq<int>, order: seq<nat>, live: map<int, int>)
    ensures var m := Run(first, count, Takes(1, count));
      Books(m.pages, m.lists, head, order, live, -1) && |m.pages| == count && AllOf(live, 0)
    ensures forall p {:trigger p in live} :: p in live <==> 0 <= p < count
  {
    head, order, live := TakeMany(first, count, 0, count);
    assert Pow2(0) == 1;
    var m := Run(first, count, Takes(1, count));
    BelowCount(live.Keys, count);
    assert |live.Keys| == |live|;
    if |live| < count {
      SomeFree(m, head, order, live);
    }
    forall p {:trigger p in live} | 0 <= p < count ensures p in live {
      assert p in live.Keys;
    }
    forall h {:trigger order[h]} | 0 <= h < count && head[h] == h ensures Multiple(h, order[h]) && !m.pages[h].inList {
      assert h in live && live[h] == 0;
    }
  }

  /** One single page is freed. */
  lemma GiveOne(m: Memory, head: seq<int>, order: seq<nat>, live: map<int, int>, p: int)
    returns (head': seq<int>, order': seq<nat>)
    requires Books(m.pages, m.lists, head, order, live, -1) && AllOf(live, 0) && p in live
    ensures var m' := Step(m, Free(p, 1));
      Books(m'.pages, m'.lists, head', order', live - {p}, -1) && |m'.pages| == |m.pages|
  {
    assert live[p] == 0 && order[p] == 0;
    assert Freeable(m, p, 1);
    head', order' := InsertBooks(m, head, order, live, p);
  }

  lemma {:induction false} GiveSingles(first: int, count: nat, n: nat)
    returns (head: seq<int>, order: seq<nat>, live: map<int, int>)
    requires n <= count
    ensures var m := Run(first, count, Takes(1, count) + Gives(n));
      Books(m.pages, m.lists, head, order, live, -1) && |m.pages| == count && AllOf(live, 0)
    ensures forall p {:trigger p in live} :: p in live <==> n <= p < count
    decreases n
  {
    if n == 0 {
      assert Takes(1, count) + Gives(0) == Takes(1, count);
      head, order, live := TakeAll(first, count);
    } else {
      head, order, live := GiveSingles(first, count, n - 1);
      GivesStep(first, count, n);
      head, order := GiveOne(Run(first, count, Takes(1, count) + Gives(n - 1)), head, order, live, n - 1);
      live := live - {n - 1};
    }
  }

  lemma GivesStep(first: int, count: nat, n: nat)
    requires n > 0
    ensures Run(first, count, Takes(1, count) + Gives(n)) ==
      Step(Run(first, count, Takes(1, count) + Gives(n - 1)), Free(n - 1, 1))
  {
    var calls := Takes(1, count) + Gives(n - 1);
    assert calls + [Free(n - 1, 1)] == Takes(1, count) + Gives(n);
    RunStep(first, count, calls, Free(n - 1, 1));
  }

  /** In the greedy tiling the first block has the largest order that the region can have. */
  lemma FirstIsTop(m: Memory, head: seq<int>, order: seq<nat>, live: map<int, int>)
    requires Books(m.pages, m.lists, head, order, live, -1) && live == map[] && |head| > 0
    ensures 0 in m.lists[Top(|head|)]
  {
    AllFreeIsGreedy(m.pages, m.lists, head, order, live);
    var k := order[0];
    assert head[0] == 0;
    FitsTop(|head|, k);
    MultipleZero(k + 1);
    if k < Top(|head|) {
      TopFits(|head|);
      Pow2Monotone(k + 1, Top(|head|));
    }
    assert 0 !in live;
    assert FreeBlock(m.pages, head, order, 0, k);
  }

  /** In every run every block starts at an address that is a multiple of its size, if and only if the first page is
      aligned to the largest block that the region can have. */
  lemma AlignedExactly(first: int, count: nat)
    ensures Multiple(first, Top(count)) <==>
      forall calls {:trigger Run(first, count, calls)} :: AtAddresses(first, Run(first, count, calls))
  {
    if Multiple(first, Top(count)) {
      forall calls {:trigger Run(first, count, calls)} ensures AtAddresses(first, Run(first, count, calls)) {
        var head, order, live := RunBooks(first, count, calls);
        BooksAtAddresses(first, Run(first, count, calls), head, order, live);
      }
    } else {
      var calls := Takes(1, count) + Gives(count);
      var head, order, live := GiveSingles(first, count, count);
      assert forall p {:trigger p in live} :: p !in live;
      var m := Run(first, count, calls);
      assert count > 0;
      FirstIsTop(m, head, order, live);
      MultipleIsMod(first, Top(count));
      assert !AtAddress(first, 0, Top(count));
    }
  }

  // ---------------------------------------------------------------- the object

  /** With nothing live the lists hold what the region was carved into. */
  lemma CarvedAgain(first: int, count: nat, lists: seq<seq<int>>, pages: seq<Page>, head: seq<int>, order: seq<nat>)
    requires Books(pages, lists, head, order, map[], -1) && |head| == count && Multiple(first, Top(count))
    ensures |lists| == |Carve(first, count).lists| == FREELISTS
    ensures forall k, p {:trigger p in lists[k]} :: 0 <= k < FREELISTS ==>
      (p in lists[k] <==> p in Carve(first, count).lists[k])
  {
    var m := Carve(first, count);
    var head', order' := CarveTiles(first, count);
    CarveAligned(first, count, m.pages, head', order');
    AllFreeIsGreedy(pages, lists, head, order, map[]);
    forall k, p {:trigger p in lists[k]} | 0 <= k < FREELISTS ensures p in lists[k] <==> p in m.lists[k] {
      SameBlocks(pages, head, order, m.pages, head', order', lists, m.lists, k, p);
    }
  }

  /** Two greedy tilings with nothing live have the same lists. */
  lemma SameBlocks(pages: seq<Page>, head: seq<int>, order: seq<nat>, pages': seq<Page>, head': seq<int>,
                   order': seq<nat>, lists: seq<seq<int>>, lists': seq<seq<int>>, k: int, p: int)
    requires Rough(pages, lists, head, order, map[], -1) && Rough(pages', lists', head', order', map[], -1)
    requires AtMultiples(head, order) && AtMultiples(head', order') && |head| == |head'| && 0 <= k < FREELISTS
    requires Greedy(head, order, |head|) && Greedy(head', order', |head|)
    ensures p in lists[k] <==> p in lists'[k]
  {
    if 0 <= p < |head| {
      GreedyIsUnique(head, order, head', order', p);
      if head[p] == p {
        AllFree(pages, lists, head, order, p);
        AllFree(pages', lists', head', order', p);
      }
    }
  }

  lemma AllFree(pages: seq<Page>, lists: seq<seq<int>>, head: seq<int>, order: seq<nat>, p: int)
    requires Rough(pages, lists, head, order, map[], -1) && 0 <= p < |head| && head[p] == p
    ensures pages[p].inList
  {
    var none: map<int, int> := map[];
    assert p !in none;
  }

  class BuddyAllocator {
    /** The page number of the first free page, and how many pages there are. */
    const first: int
    const count: int
    var pages: seq<Page>
    var lists: seq<seq<int>>
    ghost var head: seq<int>
    ghost var order: seq<nat>
    ghost var live: map<int, int>

    ghost predicate Valid()
      reads this
    {
      Books(pages, lists, head, order, live, -1) && |head| == count && Multiple(first, Top(count))
    }

    ghost function Value(): Memory
      reads this
    {
      Memory(pages, lists)
    }

    /** The order of the largest block that fits at page `i`: its address is a multiple of its size. */
    static method LargestBlock(first: int, count: int, i: int) returns (k: nat)
      requires 0 <= i < count
      ensures k == LargestOrder(first, count, i) && LargestAt(first, count, i, k)
    {
      k := FREELISTS - 1;
      while (first + i) % Pow2(k) != 0 || count - i < Pow2(k)
        invariant k < FREELISTS && LargestFrom(first, count, i, k) == LargestOrder(first, count, i)
        decreases k
      {
        assert Pow2(0) == 1;
        k := k - 1;
      }
      LargestOrderIsLargest(first, count, i);
    }

    /** `pmalloc_add_mem`: the free pages of the region are carved into blocks. */
    constructor (first: int, count: nat)
      ensures this.first == first && this.count == count && live == map[] && Value() == Carve(first, count)
      ensures Multiple(first, Top(count)) ==> Valid() && Greedy(head, order, count)
    {
      this.first, this.count := first, count;
      pages := seq(count, i => Page(false, false, FREELISTS));
      lists := seq(FREELISTS, k => []);
      live := map[];
      new;
      assert Value() == Blank(count);
      var i := 0;
      while i < count
        invariant 0 <= i && |pages| == count && |lists| == FREELISTS && live == map[]
        invariant CarveFrom(first, count, Value(), i) == Carve(first, count)
      {
        var k := LargestBlock(first, count, i);
        ghost var before := Value();
        pages := pages[i := pages[i].(listIndex := k, inList := true)];
        lists := lists[k := lists[k] + [i]];
        assert Value() == CarveBlock(before, i, k);
        i := i + Pow2(k);
      }
      ghost var h, o := CarveTiles(first, count);
      if Multiple(first, Top(count)) {
        CarveAligned(first, count, Carve(first, count).pages, h, o);
      }
      head, order := h, o;
    }

    method MergePages(page: int, buddy: int, k: nat) returns (merged: int)
      requires InRange(Value(), page, k) && InRange(Value(), buddy, k)
      modifies this`pages, this`lists
      ensures Value() == MergeBlock(old(Value()), page, buddy, k) && merged == if page < buddy then page else buddy
    {
      if pages[buddy].inList {
        lists := lists[k := Without(lists[k], buddy)];
        pages := pages[buddy := pages[buddy].(inList := false)];
      }
      merged := if page < buddy then page else buddy;
      pages := pages[merged := pages[merged].(inList := false, listIndex := k + 1)];
    }

    /** Finds the buddy of the block at `page` and looks at its page. */
    method BuddyLooksFree(page: int, k: nat) returns (ok: bool, buddy: int)
      requires InRange(Value(), page, k)
      ensures buddy == BuddyOf(page, k) && (ok <==> LooksFree(Value(), page, k))
    {
      var size := Pow2(k);
      MultipleIsMod(page, k + 1);
      buddy := if page % Pow2(k + 1) != 0 then page - size else page + size;
      if buddy < 0 || buddy >= |pages| {
        return false, buddy;
      }
      ok := !pages[buddy].used && pages[buddy].listIndex == pages[page].listIndex;
    }

    /** Merges the block with its buddy, if that looks free. */
    method MergeStep(page: int, k: nat) returns (ok: bool, merged: int)
      requires InRange(Value(), page, k) && k + 1 < FREELISTS == |lists|
      modifies this`pages, this`lists
      ensures |lists| == FREELISTS && 0 <= merged < |pages| && (ok <==> LooksFree(old(Value()), page, k))
      ensures ok ==> InsertFrom(old(Value()), page, k) == InsertFrom(Value(), merged, k + 1)
      ensures !ok ==> merged == page && Value() == old(Value())
    {
      var buddy;
      ok, buddy := BuddyLooksFree(page, k);
      merged := page;
      if ok {
        InsertFromStep(Value(), page, k);
        merged := MergePages(page, buddy, k);
      }
    }

    /** `freelist_insert`: a block that has become free is merged with its buddy as often as possible and put into the
        list of its order. */
    method FreelistInsert(index: nat, start: int)
      requires InRange(Value(), start, index) && |lists| == FREELISTS
      modifies this`pages, this`lists
      ensures Value() == Insert(old(Value()), start, index)
    {
      pages := pages[start := pages[start].(used := false, listIndex := index)];
      var page, newI := start, index;
      assert Insert(old(Value()), start, index) == InsertFrom(Value(), page, newI);
      while newI < FREELISTS - 1
        invariant newI < FREELISTS == |lists| && 0 <= page < |pages|
        invariant Insert(old(Value()), start, index) == InsertFrom(Value(), page, newI)
      {
        var ok;
        ok, page := MergeStep(page, newI);
        if !ok {
          break;
        }
        newI := newI + 1;
      }
      assert InsertFrom(Value(), page, newI) == PushBlock(Value(), page, newI);
      pages := pages[page := pages[page].(inList := true)];
      lists := lists[newI := lists[newI] + [page]];
    }

    /** The block at `page` is cut down to order `index`; the upper halves become free. */
    method Split(page: int, newI: nat, index: nat)
      requires index <= newI < |lists| && 0 <= page && page + Pow2(newI) <= |pages|
      modifies this`pages, this`lists
      ensures Value() == SplitFrom(old(Value()), page, newI, index)
    {
      var i := newI;
      while i > index
        invariant index <= i < |lists| && page + Pow2(i) <= |pages|
        invariant SplitFrom(old(Value()), page, newI, index) == SplitFrom(Value(), page, i, index)
      {
        SplitFromStep(Value(), page, i, index);
        ghost var before := Value();
        var second := page + Pow2(i) / 2;
        pages := pages[second := pages[second].(listIndex := i - 1)];
        lists := lists[i - 1 := lists[i - 1] + [second]];
        pages := pages[second := pages[second].(inList := true)];
        assert Value() == SplitBlock(before, page, i - 1);
        i := i - 1;
      }
    }

    /** `freelist_get`: a block of order `index`, cut from a larger one if need be; -1 if there is none. */
    method FreelistGet(index: nat) returns (page: int)
      requires index < FREELISTS == |lists|
      requires forall k, p {:trigger p in lists[k]} :: 0 <= k < FREELISTS && p in lists[k] ==>
        0 <= p && p + Pow2(k) <= |pages|
      modifies this`pages, this`lists
      ensures (Value(), page) == GetFrom(old(Value()), index, index)
    {
      var newI := index;
      while newI < FREELISTS
        invariant index <= newI <= FREELISTS && Value() == old(Value())
        invariant GetFrom(Value(), index, newI) == GetFrom(Value(), index, index)
      {
        if lists[newI] != [] {
          page := lists[newI][|lists[newI]| - 1];
          assert page in lists[newI];
          lists := lists[newI := lists[newI][..|lists[newI]| - 1]];
          pages := pages[page := pages[page].(used := true, inList := false)];
          if newI != index {
            pages := pages[page := pages[page].(listIndex := index)];
          }
          assert Value() == PopBlock(old(Value()), newI, index);
          Split(page, newI, index);
          return;
        }
        newI := newI + 1;
      }
      return -1;
    }

    /** `pmalloc`: the first page of a block of at least `n` pages; -1 if there is none. */
    method Pmalloc(n: int) returns (page: int)
      requires Valid() && 0 <= n <= 8192
      modifies this
      ensures Valid() && Value() == Step(old(Value()), Alloc(n))
      ensures page == -1 ==> live == old(live) && Value() == old(Value())
      ensures n > 0 && page == -1 ==> NoneFrom(old(lists), SizeToIndex(n))
      ensures page != -1 ==> n > 0 && page !in old(live) && live == old(live)[page := SizeToIndex(n)]
    {
      if n == 0 {
        return -1;
      }
      SizeFits(n);
      ghost var index := SizeToIndex(n);
      ghost var m', p, head', order' := GetRough(Merged, Value(), head, order, live, index, index);
      FreeInside(pages, lists, head, order, live);
      page := FreelistGet(SizeToIndex(n));
      head, order := head', order';
      if page != -1 {
        live := live[page := index];
      }
    }

    /** `pfree`, which demands that the block is used and was allocated with a count of the same order. */
    method Pfree(page: int, n: int)
      requires Valid() && 0 < n <= 8192 && page in live && live[page] == SizeToIndex(n)
      modifies this
      ensures Valid() && live == old(live) - {page} && Value() == Step(old(Value()), Free(page, n))
    {
      ghost var head', order' := InsertBooks(Value(), head, order, live, page);
      assert pages[page].listIndex == live[page];
      FreelistInsert(pages[page].listIndex, page);
      head, order, live := head', order', live - {page};
    }

    /** An allocated block starts at a multiple of its size, has at least the pages asked for, lies inside the region
        and overlaps no other. */
    lemma BlockFacts(p: int, n: int)
      requires Valid() && 0 < n <= 8192 && p in live && live[p] == SizeToIndex(n)
      ensures 0 <= p && n <= Pow2(live[p]) && p + Pow2(live[p]) <= count && (first + p) % Pow2(live[p]) == 0
      ensures forall q {:trigger q in live} :: q in live && q != p ==>
        0 <= live[q] && (p + Pow2(live[p]) <= q || q + Pow2(live[q]) <= p)
    {
      SizeFits(n);
      assert live[p] == order[p] && head[p] == p;
      BlockAtAddress(first, head, order, p);
      forall q {:trigger q in live} | q in live && q != p
        ensures 0 <= live[q] && (p + Pow2(live[p]) <= q || q + Pow2(live[q]) <= p)
      {
        LiveApart(pages, lists, head, order, live, if p < q then p else q, if p < q then q else p);
      }
    }

    /** Freeing all live blocks, in any order, leaves the one greedy tiling: the lists hold the blocks that the region
        was carved into. */
    method FreeAll(calls: seq<(int, int)>)
      requires Valid() && live.Keys == Firsts(calls, |calls|)
      requires forall j {:trigger calls[j]} :: 0 <= j < |calls| ==>
        0 < calls[j].1 <= 8192 && calls[j].0 in live && live[calls[j].0] == SizeToIndex(calls[j].1)
      requires forall i, j {:trigger calls[i], calls[j]} :: 0 <= i < j < |calls| ==> calls[i].0 != calls[j].0
      modifies this
      ensures Valid() && live == map[] && Greedy(head, order, count)
      ensures |lists| == |Carve(first, count).lists| == FREELISTS
      ensures forall k, p {:trigger p in lists[k]} :: 0 <= k < FREELISTS ==>
        (p in lists[k] <==> p in Carve(first, count).lists[k])
    {
      ghost var all := live;
      for i := 0 to |calls|
        invariant Valid() && live == all - Firsts(calls, i)
      {
        FirstsNew(calls, i);
        Pfree(calls[i].0, calls[i].1);
        FirstsStep(calls, i, all);
      }
      AllFreeIsGreedy(pages, lists, head, order, live);
      CarvedAgain(first, count, lists, pages, head, order);
    }
  }

  /** `size_to_index`: 64 minus the leading zeros of `n - 1`. */
  function SizeToIndex(n: int): nat
    requires n > 0
  {
    if n == 1 then 0 else Log2(n - 1) + 1
  }

  /** The smallest order whose blocks have at least `n` pages. */
  lemma SizeFits(n: int)
    requires 0 < n <= 8192
    ensures SizeToIndex(n) < FREELISTS && n <= Pow2(SizeToIndex(n)) && (n > 1 ==> Pow2(SizeToIndex(n) - 1) < n)
  {
    if n > 1 {
      Log2Bounds(n - 1);
      LargestSize();
      Log2Below(n - 1, 13);
    }
  }

  /** The blocks in the lists lie inside the region. */
  lemma FreeInside(pages: seq<Page>, lists: seq<seq<int>>, head: seq<int>, order: seq<nat>, live: map<int, int>)
    requires Rough(pages, lists, head, order, live, -1)
    ensures forall k, p {:trigger p in lists[k]} :: 0 <= k < FREELISTS && p in lists[k] ==>
      0 <= p && p + Pow2(k) <= |pages|
  {
    forall k, p {:trigger p in lists[k]} | 0 <= k < FREELISTS && p in lists[k]
      ensures 0 <= p && p + Pow2(k) <= |pages|
    {
      assert order[p] == k;
    }
  }
}
