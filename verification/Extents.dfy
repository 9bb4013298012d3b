/** What a virtual-address arena looks like from outside: a sequence of extents that tile it. */
module Extents {

  datatype Extent = Extent(base: int, size: int, used: bool)

  /** `e` covers [lo, hi) with non-empty extents, in address order, without gap or overlap. */
  ghost predicate Tiles(e: seq<Extent>, lo: int, hi: int)
  {
    if e == [] then lo == hi
    else e[0].base == lo && e[0].size > 0 && Tiles(e[1..], lo + e[0].size, hi)
  }

  /** No two neighbours are both free. */
  ghost predicate Coalesced(e: seq<Extent>)
  {
    forall i :: 0 <= i < |e| - 1 ==> e[i].used || e[i + 1].used
  }

  /** The allocated blocks: their bases and sizes. */
  ghost function Live(e: seq<Extent>): map<int, int>
  {
    if e == [] then map[]
    else if e[0].used then Live(e[1..])[e[0].base := e[0].size]
    else Live(e[1..])
  }

  lemma {:induction false} TilesBounds(e: seq<Extent>, lo: int, hi: int)
    requires Tiles(e, lo, hi)
    ensures lo <= hi
    ensures forall b :: b in Live(e) ==> lo <= b && Live(e)[b] > 0 && b + Live(e)[b] <= hi
  {
    if e != [] {
      TilesBounds(e[1..], lo + e[0].size, hi);
    }
  }

  /** Live blocks never overlap. */
  lemma {:induction false} LiveDisjoint(e: seq<Extent>, lo: int, hi: int, b: int, c: int)
    requires Tiles(e, lo, hi) && b in Live(e) && c in Live(e) && b < c
    ensures b + Live(e)[b] <= c
  {
    TilesBounds(e[1..], lo + e[0].size, hi);
    if b != lo || !e[0].used {
      LiveDisjoint(e[1..], lo + e[0].size, hi, b, c);
    }
  }

  lemma LiveOf(e: seq<Extent>, lo: int, hi: int, i: int)
    requires Tiles(e, lo, hi) && 0 <= i < |e| && e[i].used
    ensures e[i].base in Live(e) && Live(e)[e[i].base] == e[i].size
  {
    if i > 0 {
      LiveOf(e[1..], lo + e[0].size, hi, i - 1);
      ExtentBounds(e[1..], lo + e[0].size, hi, i - 1);
    }
  }

  lemma {:induction false} ExtentBounds(e: seq<Extent>, lo: int, hi: int, i: int)
    requires Tiles(e, lo, hi) && 0 <= i < |e|
    ensures lo <= e[i].base && e[i].size > 0 && e[i].base + e[i].size <= hi
  {
    TilesBounds(e[1..], lo + e[0].size, hi);
    if i > 0 {
      ExtentBounds(e[1..], lo + e[0].size, hi, i - 1);
    }
  }

  /** A free extent has no address in common with a live block. */
  lemma {:induction false} FreeApartFromLive(e: seq<Extent>, lo: int, hi: int, i: int)
    requires Tiles(e, lo, hi) && 0 <= i < |e| && !e[i].used
    ensures lo <= e[i].base && e[i].base + e[i].size <= hi
    ensures forall b :: b in Live(e) ==> b + Live(e)[b] <= e[i].base || e[i].base + e[i].size <= b
  {
    ExtentBounds(e, lo, hi, i);
    TilesBounds(e[1..], lo + e[0].size, hi);
    if i > 0 {
      FreeApartFromLive(e[1..], lo + e[0].size, hi, i - 1);
    }
  }

  /** What no live block touches lies inside one free extent. */
  lemma {:induction false} CoveringFree(e: seq<Extent>, lo: int, hi: int, at: int, wanted: int, live: map<int, int>)
    returns (i: int)
    requires Tiles(e, lo, hi) && Coalesced(e) && lo <= at && 0 < wanted && at + wanted <= hi && live == Live(e)
    requires forall b {:trigger live[b]} :: b in live ==> b + live[b] <= at || at + wanted <= b
    ensures 0 <= i < |e| && !e[i].used && e[i].base <= at && at + wanted <= e[i].base + e[i].size
  {
    var end := lo + e[0].size;
    if e[0].used {
      assert live[lo] == e[0].size;
    }
    if end <= at {
      CoalescedTail(e);
      TilesBounds(e[1..], end, hi);
      var rest := Live(e[1..]);
      forall b {:trigger rest[b]} | b in rest ensures b + rest[b] <= at || at + wanted <= b {
        assert live[b] == rest[b];
      }
      i := CoveringFree(e[1..], end, hi, at, wanted, rest);
      i := i + 1;
    } else {
      i := 0;
      if end < at + wanted {
        assert e[1..] != [] && e[1].used;
        LiveOf(e, lo, hi, 1);
      }
    }
  }

  /** Two coalesced tilings of one arena with the same live blocks are the same tiling: the free
      space is determined by what is allocated. */
  lemma {:induction false} Canonical(e: seq<Extent>, f: seq<Extent>, lo: int, hi: int)
    requires Tiles(e, lo, hi) && Tiles(f, lo, hi) && Coalesced(e) && Coalesced(f) && Live(e) == Live(f)
    ensures e == f
  {
    if e != [] {
      TilesBounds(e[1..], lo + e[0].size, hi);
    }
    if f != [] {
      TilesBounds(f[1..], lo + f[0].size, hi);
    }
    if e != [] && f != [] {
      HeadsAgree(e, f, lo, hi);
      CoalescedTail(e);
      CoalescedTail(f);
      assert lo !in Live(e[1..]) && lo !in Live(f[1..]);
      assert Live(e[1..]) == if e[0].used then Live(e) - {lo} else Live(e);
      assert Live(f[1..]) == if f[0].used then Live(f) - {lo} else Live(f);
      Canonical(e[1..], f[1..], lo + e[0].size, hi);
      assert e == [e[0]] + e[1..] && f == [f[0]] + f[1..];
    }
  }

  lemma CoalescedTail(e: seq<Extent>)
    requires Coalesced(e) && e != []
    ensures Coalesced(e[1..])
  {
    forall i | 0 <= i < |e[1..]| - 1
      ensures e[1..][i].used || e[1..][i + 1].used
    {
      assert e[1..][i] == e[i + 1] && e[1..][i + 1] == e[i + 2];
    }
  }

  lemma HeadLive(e: seq<Extent>, lo: int, hi: int)
    requires Tiles(e, lo, hi) && e != []
    ensures e[0].used <==> lo in Live(e)
    ensures lo in Live(e) ==> Live(e)[lo] == e[0].size
  {
    TilesBounds(e[1..], lo + e[0].size, hi);
  }

  lemma HeadsAgree(e: seq<Extent>, f: seq<Extent>, lo: int, hi: int)
    requires Tiles(e, lo, hi) && Tiles(f, lo, hi) && Coalesced(e) && Coalesced(f) && Live(e) == Live(f)
    requires e != [] && f != []
    ensures e[0] == f[0]
  {
    HeadLive(e, lo, hi);
    HeadLive(f, lo, hi);
    if !e[0].used {
      FreeHeadNotShorter(e, f, lo, hi);
      FreeHeadNotShorter(f, e, lo, hi);
    }
  }

  lemma FreeHeadNotShorter(e: seq<Extent>, f: seq<Extent>, lo: int, hi: int)
    requires Tiles(e, lo, hi) && Tiles(f, lo, hi) && Coalesced(e) && Live(e) == Live(f)
    requires e != [] && f != [] && !e[0].used && !f[0].used
    ensures e[0].size >= f[0].size
  {
    TilesBounds(f[1..], lo + f[0].size, hi);
    if |e| > 1 {
      assert e[0].used || e[1].used;
      HeadLive(e[1..], lo + e[0].size, hi);
    }
  }

  /** When nothing is live, the arena is a single free extent. */
  lemma AllFree(e: seq<Extent>, lo: int, hi: int)
    requires Tiles(e, lo, hi) && lo < hi && Coalesced(e) && Live(e) == map[]
    ensures e == [Extent(lo, hi - lo, false)]
  {
    var f := [Extent(lo, hi - lo, false)];
    assert f[1..] == [];
    Canonical(e, f, lo, hi);
  }
}
