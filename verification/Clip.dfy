/** Rectangles and clip regions (libs/libui/include/ui/primitive.hpp, libs/libui/src/context.cpp). */
module Clip {

  import opened Words

  datatype Point = Point(x: int, y: int)

  datatype Rect = Rect(x: int, y: int, width: int, height: int)

  /** Its edges are 32-bit numbers: no sum in it wraps. */
  predicate Ok(r: Rect)
  {
    0 <= r.x && 0 <= r.y && 0 <= r.width && 0 <= r.height && r.x + r.width < U32 && r.y + r.height < U32
  }

  predicate Contains(r: Rect, p: Point)
  {
    r.x <= p.x < r.x + r.width && r.y <= p.y < r.y + r.height
  }

  predicate Intersects(r: Rect, o: Rect)
  {
    r.x < o.x + o.width && o.x < r.x + r.width && r.y < o.y + o.height && o.y < r.y + r.height
  }

  /** The common part of two rectangles that intersect. */
  function Intersect(r: Rect, o: Rect): (c: Rect)
    requires Ok(r) && Ok(o) && Intersects(r, o)
    ensures Ok(c) && forall p :: Contains(c, p) <==> Contains(r, p) && Contains(o, p)
  {
    var x, y := Max(r.x, o.x), Max(r.y, o.y);
    Rect(x, y, Min(r.x + r.width - x, o.x + o.width - x), Min(r.y + r.height - y, o.y + o.height - y))
  }

  /** The edges of `r` lie inside those of `o`. */
  predicate Within(r: Rect, o: Rect)
  {
    o.x <= r.x && r.x + r.width <= o.x + o.width && o.y <= r.y && r.y + r.height <= o.y + o.height
  }

  predicate AllOk(s: seq<Rect>)
  {
    forall i :: 0 <= i < |s| ==> Ok(s[i])
  }

  /** The region of a list of rectangles. */
  predicate Covers(s: seq<Rect>, p: Point)
  {
    exists i :: 0 <= i < |s| && Contains(s[i], p)
  }

  /** No two of the rectangles intersect. */
  predicate Apart(s: seq<Rect>)
  {
    forall i, j :: 0 <= i < j < |s| ==> !Intersects(s[i], s[j])
  }

  predicate Clear(s: seq<Rect>, o: Rect)
  {
    forall i :: 0 <= i < |s| ==> !Intersects(s[i], o)
  }

  predicate AllWithin(s: seq<Rect>, o: Rect)
  {
    forall i :: 0 <= i < |s| ==> Within(s[i], o)
  }

  /** Every rectangle of `s` lies inside one of `t`. */
  predicate Refines(s: seq<Rect>, t: seq<Rect>)
  {
    forall i :: 0 <= i < |s| ==> InsideOne(s[i], t)
  }

  predicate InsideOne(r: Rect, t: seq<Rect>)
  {
    exists j :: 0 <= j < |t| && Within(r, t[j])
  }

  lemma CoversPush(s: seq<Rect>, r: Rect)
    ensures forall p :: Covers(s + [r], p) <==> Covers(s, p) || Contains(r, p)
  {
    forall p
      ensures Covers(s + [r], p) <==> Covers(s, p) || Contains(r, p)
    {
      var t := s + [r];
      assert t[|s|] == r;
      if Covers(s, p) {
        var i :| 0 <= i < |s| && Contains(s[i], p);
        assert t[i] == s[i];
      }
    }
  }

  /** Everything a piece of `r` without `o` must satisfy. */
  predicate Pieces(s: seq<Rect>, r: Rect, o: Rect)
  {
    AllOk(s) && AllWithin(s, r) && Clear(s, o) && Apart(s)
  }

  lemma PiecesPush(s: seq<Rect>, piece: Rect, r: Rect, o: Rect)
    requires Pieces(s, r, o) && Ok(piece) && Within(piece, r) && !Intersects(piece, o) && Clear(s, piece)
    ensures Pieces(s + [piece], r, o)
  {
  }

  /** The pieces to the left and to the right of `o`, over the full height of `r`. */
  method SubtractSides(r: Rect, o: Rect) returns (res: seq<Rect>, leftSide: int, rightSide: int)
    requires Ok(r) && Ok(o) && Intersects(r, o)
    ensures leftSide == Max(o.x - r.x, 0) && rightSide == Max(r.x + r.width - o.x - o.width, 0)
    ensures Pieces(res, r, o) && |res| <= 2
    ensures forall i :: 0 <= i < |res| ==>
      res[i].x + res[i].width <= r.x + leftSide || res[i].x >= r.x + r.width - rightSide
    ensures forall p :: Covers(res, p) <==> Contains(r, p) && (p.x < o.x || p.x >= o.x + o.width)
  {
    res := [];
    var rightX := r.x + r.width;
    var otherRightX := o.x + o.width;
    leftSide, rightSide := 0, 0;
    if o.x > r.x {
      var left := Rect(r.x, r.y, o.x - r.x, r.height);
      PiecesPush(res, left, r, o);
      CoversPush(res, left);
      res := res + [left];
      leftSide := o.x - r.x;
    }
    if otherRightX < rightX {
      var right := Rect(otherRightX, r.y, rightX - otherRightX, r.height);
      PiecesPush(res, right, r, o);
      CoversPush(res, right);
      res := res + [right];
      rightSide := rightX - otherRightX;
    }
  }

  /** `Rect::subtract`: what is left of `r` when `o`, which intersects it, is taken away. */
  method Subtract(r: Rect, o: Rect) returns (res: seq<Rect>)
    requires Ok(r) && Ok(o) && Intersects(r, o)
    ensures Pieces(res, r, o) && |res| <= 4
    ensures forall p :: Covers(res, p) <==> Contains(r, p) && !Contains(o, p)
  {
    var leftSide, rightSide;
    res, leftSide, rightSide := SubtractSides(r, o);
    var bottomY := r.y + r.height;
    var otherBottomY := o.y + o.height;
    if o.y > r.y {
      var top := Rect(r.x + leftSide, r.y, r.width - leftSide - rightSide, o.y - r.y);
      PiecesPush(res, top, r, o);
      CoversPush(res, top);
      res := res + [top];
    }
    if otherBottomY < bottomY {
      var bottom := Rect(r.x + leftSide, otherBottomY, r.width - leftSide - rightSide, bottomY - otherBottomY);
      PiecesPush(res, bottom, r, o);
      CoversPush(res, bottom);
      res := res + [bottom];
    }
  }

  /** `rects` with `pieces` in place of the rectangle at `i`. */
  lemma ReplaceFacts(rects: seq<Rect>, i: int, pieces: seq<Rect>, o: Rect)
    requires 0 <= i < |rects| && AllOk(rects) && Apart(rects) && Pieces(pieces, rects[i], o)
    ensures var t := rects[..i] + rects[i + 1..] + pieces;
      AllOk(t) && Apart(t) && Refines(t, rects)
  {
    var t := rects[..i] + rects[i + 1..] + pieces;
    forall k | 0 <= k < |t|
      ensures Ok(t[k]) && InsideOne(t[k], rects)
    {
      var j := if k < i then k else if k < |rects| - 1 then k + 1 else i;
      assert Within(t[k], rects[j]);
    }
    forall k, l | 0 <= k < l < |t|
      ensures !Intersects(t[k], t[l])
    {
      if l >= |rects| - 1 && k < |rects| - 1 {
        var j := if k < i then k else k + 1;
        assert t[k] == rects[j] && t[l] == pieces[l - |rects| + 1];
        assert !Intersects(rects[j], rects[i]);
      }
    }
  }

  lemma ReplaceCovers(rects: seq<Rect>, i: int, pieces: seq<Rect>)
    requires 0 <= i < |rects|
    ensures forall p ::
      Covers(rects[..i] + rects[i + 1..] + pieces, p) <==> Covers(rects[..i] + rects[i + 1..], p) || Covers(pieces, p)
    ensures forall p :: Covers(rects, p) <==> Covers(rects[..i] + rects[i + 1..], p) || Contains(rects[i], p)
  {
    var rest := rects[..i] + rects[i + 1..];
    forall p
      ensures Covers(rest + pieces, p) <==> Covers(rest, p) || Covers(pieces, p)
      ensures Covers(rects, p) <==> Covers(rest, p) || Contains(rects[i], p)
    {
      if Covers(rest, p) {
        var k :| 0 <= k < |rest| && Contains(rest[k], p);
        assert (rest + pieces)[k] == rest[k] && rects[if k < i then k else k + 1] == rest[k];
      }
      if Covers(pieces, p) {
        var k :| 0 <= k < |pieces| && Contains(pieces[k], p);
        assert (rest + pieces)[|rest| + k] == pieces[k];
      }
      if Covers(rects, p) {
        var k :| 0 <= k < |rects| && Contains(rects[k], p);
        assert k != i ==> rest[if k < i then k else k - 1] == rects[k];
      }
    }
  }

  lemma RefinesTransitive(s: seq<Rect>, t: seq<Rect>, u: seq<Rect>)
    requires Refines(s, t) && Refines(t, u)
    ensures Refines(s, u)
  {
    forall i | 0 <= i < |s|
      ensures InsideOne(s[i], u)
    {
      var j :| 0 <= j < |t| && Within(s[i], t[j]);
      var k :| 0 <= k < |u| && Within(t[j], u[k]);
      assert Within(s[i], u[k]);
    }
  }

  lemma ClearCovers(s: seq<Rect>, o: Rect)
    requires Clear(s, o)
    ensures forall p :: Covers(s, p) ==> !Contains(o, p)
  {
  }

  /** What the region of `res` has in common with that of `rects`, of which `o` is being taken away. */
  ghost predicate Reduced(res: seq<Rect>, rects: seq<Rect>, o: Rect)
  {
    && AllOk(res) && Apart(res) && Refines(res, rects)
    && (forall p :: Covers(res, p) ==> Covers(rects, p))
    && (forall p :: Covers(rects, p) && !Contains(o, p) ==> Covers(res, p))
  }

  /** One rectangle is erased and what is left of it is pushed to the end. */
  method EraseAndPush(res: seq<Rect>, i: int, o: Rect, ghost rects: seq<Rect>) returns (next: seq<Rect>)
    requires 0 <= i < |res| && Reduced(res, rects, o) && Ok(o) && Intersects(res[i], o)
    ensures Reduced(next, rects, o) && |next| >= |res| - 1
    ensures forall k :: 0 <= k < |res| - 1 ==> next[k] == res[if k < i then k else k + 1]
    ensures forall k :: |res| - 1 <= k < |next| ==> !Intersects(next[k], o)
  {
    var splits := Subtract(res[i], o);
    ReplaceFacts(res, i, splits, o);
    ReplaceCovers(res, i, splits);
    next := res[..i] + res[i + 1..] + splits;
    RefinesTransitive(next, res, rects);
  }

  lemma RefinesItself(s: seq<Rect>)
    ensures Refines(s, s)
  {
    forall i | 0 <= i < |s|
      ensures InsideOne(s[i], s)
    {
      assert Within(s[i], s[i]);
    }
  }

  /** The first `i` rectangles and those after the next `unseen` ones do not intersect `o`. */
  ghost predicate Seen(res: seq<Rect>, i: int, unseen: int, o: Rect)
  {
    forall k {:trigger res[k]} :: 0 <= k < |res| && (k < i || i + unseen <= k) ==> !Intersects(res[k], o)
  }

  lemma SeenNext(res: seq<Rect>, i: int, unseen: int, o: Rect)
    requires 0 <= i < |res| && 0 <= unseen && Seen(res, i, unseen, o) && !Intersects(res[i], o)
    ensures Seen(res, i + 1, if unseen > 0 then unseen - 1 else 0, o)
  {
  }

  lemma SeenAfterErase(res: seq<Rect>, next: seq<Rect>, i: int, unseen: int, o: Rect)
    requires 0 <= i < |res| && 0 < unseen && i + unseen <= |res| && |next| >= |res| - 1 && Seen(res, i, unseen, o)
    requires forall k :: 0 <= k < |res| - 1 ==> next[k] == res[if k < i then k else k + 1]
    requires forall k :: |res| - 1 <= k < |next| ==> !Intersects(next[k], o)
    ensures Seen(next, i, unseen - 1, o)
  {
  }

  /** The erase-and-push loop. */
  method EraseAll(rects: seq<Rect>, o: Rect) returns (res: seq<Rect>)
    requires AllOk(rects) && Apart(rects) && Ok(o)
    ensures Reduced(res, rects, o) && Clear(res, o)
  {
    res := rects;
    RefinesItself(rects);
    var i := 0;
    ghost var unseen := |rects|;
    while i < |res|
      invariant 0 <= i && 0 <= unseen && i + unseen <= |res| && Reduced(res, rects, o) && Seen(res, i, unseen, o)
      decreases unseen, |res| - i
    {
      if Intersects(res[i], o) {
        ghost var before := res;
        res := EraseAndPush(res, i, o, rects);
        SeenAfterErase(before, res, i, unseen, o);
        unseen := unseen - 1;
      } else {
        SeenNext(res, i, unseen, o);
        i := i + 1;
        unseen := if unseen > 0 then unseen - 1 else 0;
      }
    }
  }

  /** Takes `o` away from the region of a list. */
  method SubtractFrom(rects: seq<Rect>, o: Rect) returns (res: seq<Rect>)
    requires AllOk(rects) && Apart(rects) && Ok(o)
    ensures AllOk(res) && Apart(res) && Refines(res, rects) && Clear(res, o)
    ensures forall p :: Covers(res, p) <==> Covers(rects, p) && !Contains(o, p)
  {
    res := EraseAll(rects, o);
    ClearCovers(res, o);
  }

  /** Takes a list of rectangles away, one after the other. */
  method SubtractAll(rects: seq<Rect>, others: seq<Rect>) returns (res: seq<Rect>)
    requires AllOk(rects) && Apart(rects) && AllOk(others)
    ensures AllOk(res) && Apart(res) && Refines(res, rects)
    ensures forall p :: Covers(res, p) <==> Covers(rects, p) && !Covers(others, p)
  {
    res := rects;
    RefinesItself(rects);
    for j := 0 to |others|
      invariant AllOk(res) && Apart(res) && Refines(res, rects)
      invariant forall p :: Covers(res, p) <==> Covers(rects, p) && !Covers(others[..j], p)
    {
      ghost var before := res;
      res := SubtractFrom(res, others[j]);
      RefinesTransitive(res, before, rects);
      CoversPush(others[..j], others[j]);
      assert others[..j + 1] == others[..j] + [others[j]];
    }
    assert others[..|others|] == others;
  }

  /** The dirty rectangles as a list of rectangles of which no two intersect. */
  method Disjoin(dirty: seq<Rect>) returns (res: seq<Rect>)
    requires AllOk(dirty)
    ensures AllOk(res) && Apart(res) && Refines(res, dirty) && forall p :: Covers(res, p) <==> Covers(dirty, p)
  {
    res := [];
    for j := 0 to |dirty|
      invariant AllOk(res) && Apart(res) && Refines(res, dirty) && forall p :: Covers(res, p) <==> Covers(dirty[..j], p)
    {
      ghost var before := res;
      res := SubtractFrom(res, dirty[j]);
      RefinesTransitive(res, before, dirty);
      CoversPush(res, dirty[j]);
      CoversPush(dirty[..j], dirty[j]);
      assert dirty[..j + 1] == dirty[..j] + [dirty[j]];
      res := res + [dirty[j]];
    }
    assert dirty[..|dirty|] == dirty;
  }

  lemma CoversAppend(s: seq<Rect>, t: seq<Rect>)
    ensures forall p :: Covers(s + t, p) <==> Covers(s, p) || Covers(t, p)
  {
    forall p
      ensures Covers(s + t, p) <==> Covers(s, p) || Covers(t, p)
    {
      if Covers(s, p) {
        var i :| 0 <= i < |s| && Contains(s[i], p);
        assert (s + t)[i] == s[i];
      }
      if Covers(t, p) {
        var i :| 0 <= i < |t| && Contains(t[i], p);
        assert (s + t)[|s| + i] == t[i];
      }
    }
  }

  /** Lists made of separate parts of separate rectangles do not meet. */
  lemma ApartAppend(done: seq<Rect>, res: seq<Rect>, rects: seq<Rect>, k: int)
    requires 0 <= k < |rects| && Apart(rects) && Apart(done) && Apart(res)
    requires Refines(done, rects[..k]) && Refines(res, [rects[k]])
    ensures Apart(done + res) && Refines(done + res, rects[..k + 1])
  {
    var t, u := done + res, rects[..k + 1];
    forall i | 0 <= i < |t|
      ensures InsideOne(t[i], u)
    {
      if i < |done| {
        var j :| 0 <= j < |rects[..k]| && Within(done[i], rects[..k][j]);
        assert Within(t[i], u[j]);
      } else {
        assert Within(res[i - |done|], [rects[k]][0]);
        assert Within(t[i], u[k]);
      }
    }
    forall i, j | 0 <= i < j < |t|
      ensures !Intersects(t[i], t[j])
    {
      if i < |done| && j >= |done| {
        var l :| 0 <= l < |rects[..k]| && Within(done[i], rects[..k][l]);
        assert Within(res[j - |done|], [rects[k]][0]);
        assert !Intersects(rects[l], rects[k]);
      }
    }
  }
}
