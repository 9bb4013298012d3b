/** Drawing a tree of windows (libs/libui/src/window.cpp, context.cpp, gui.cpp). A window is its outer rectangle, in
    absolute coordinates, filled with one colour. */
module Windows {
  import opened Arith
  import opened Clip
  import opened Words

  /** The children are in drawing order: later ones lie above earlier ones. */
  datatype Window = Window(outer: Rect, colour: int, children: seq<Window>)

  /** Every window lies inside its parent. */
  predicate Nested(w: Window)
  {
    Ok(w.outer) && forall i :: 0 <= i < |w.children| ==> Within(w.children[i].outer, w.outer) && Nested(w.children[i])
  }

  function Outers(ws: seq<Window>): (r: seq<Rect>)
    ensures |r| == |ws|
  {
    seq(|ws|, i requires 0 <= i < |ws| => ws[i].outer)
  }

  /** The index of the last window that covers `p`; -1 if none does. */
  function LastAt(ws: seq<Window>, p: Point): (k: int)
    ensures -1 <= k < |ws|
    ensures k >= 0 ==> Contains(ws[k].outer, p)
    ensures forall j :: k < j < |ws| ==> !Contains(ws[j].outer, p)
  {
    if ws == [] then -1
    else if Contains(ws[|ws| - 1].outer, p) then |ws| - 1
    else LastAt(ws[..|ws| - 1], p)
  }

  /** The colour of the topmost window at a point inside `w`. */
  function TopColour(w: Window, p: Point): int
  {
    var k := LastAt(w.children, p);
    if k < 0 then w.colour else TopColour(w.children[k], p)
  }

  /** How many of the windows cover `p`. */
  function Layers(ws: seq<Window>, p: Point): nat
  {
    if ws == [] then 0
    else Layers(ws[..|ws| - 1], p) + if Contains(ws[|ws| - 1].outer, p) then 1 else 0
  }

  /** The colour of the topmost window at a point that some window covers. */
  function TopOf(ws: seq<Window>, p: Point): int
  {
    var k := LastAt(ws, p);
    if k < 0 then 0 else TopColour(ws[k], p)
  }

  lemma NextLayer(ws: seq<Window>, k: int, p: Point)
    requires 0 <= k < |ws|
    ensures var here := Contains(ws[k].outer, p);
      && Layers(ws[..k + 1], p) == Layers(ws[..k], p) + (if here then 1 else 0)
      && TopOf(ws[..k + 1], p) == if here then TopColour(ws[k], p) else TopOf(ws[..k], p)
  {
    assert ws[..k + 1][..k] == ws[..k];
  }

  /** A point of one window only is drawn once. */
  lemma {:induction false} OneLayer(ws: seq<Window>, p: Point)
    ensures Layers(ws, p) > 0 <==> LastAt(ws, p) >= 0
    ensures Apart(Outers(ws)) ==> Layers(ws, p) <= 1
    decreases |ws|
  {
    if ws != [] {
      var init := ws[..|ws| - 1];
      OneLayer(init, p);
      if Apart(Outers(ws)) {
        assert forall i, j :: 0 <= i < j < |init| ==>
          Outers(init)[i] == Outers(ws)[i] && Outers(init)[j] == Outers(ws)[j];
        var k := LastAt(init, p);
        if k >= 0 && Contains(ws[|ws| - 1].outer, p) {
          assert !Intersects(Outers(ws)[k], Outers(ws)[|ws| - 1]);
        }
      }
    }
  }

  /** The pixel of a bitmap of the size of `content` at the point `p` of it. */
  function BitmapAt(pixels: seq<int>, content: Rect, p: Point): int
  {
    var i := (p.y - content.y) * content.width + (p.x - content.x);
    if 0 <= i < |pixels| then pixels[i] else 0
  }

  /** Pixels are stored row by row, each row from left to right. */
  lemma PixelLands(pixels: seq<int>, content: Rect, r: int, c: int)
    requires 0 <= r < content.height && 0 <= c < content.width && |pixels| == content.width * content.height
    ensures 0 <= r * content.width + c < |pixels|
    ensures BitmapAt(pixels, content, Point(content.x + c, content.y + r)) == pixels[r * content.width + c]
  {
    RowBounds(r, content.height, content.width);
  }

  lemma OutersCover(ws: seq<Window>, p: Point)
    ensures Covers(Outers(ws), p) <==> LastAt(ws, p) >= 0
  {
    var k := LastAt(ws, p);
    if k >= 0 {
      assert Contains(Outers(ws)[k], p);
    }
  }

  lemma AboveCover(ws: seq<Window>, k: int, p: Point)
    requires 0 <= k < |ws|
    ensures Contains(ws[k].outer, p) && !Covers(Outers(ws[k + 1..]), p) <==> LastAt(ws, p) == k
  {
    var j, above := LastAt(ws, p), Outers(ws[k + 1..]);
    if j > k {
      assert Contains(above[j - k - 1], p);
    }
    assert forall i :: 0 <= i < |above| ==> above[i] == ws[k + 1 + i].outer;
  }

  /** Where a loop from `start` over `end - start` steps ends, in 32-bit arithmetic: the difference may wrap, and the
      sum wraps back. */
  function LoopEnd(start: int, end: int): (r: int)
    requires 0 <= start < U32 && 0 <= end < U32
    ensures r == end
  {
    var length := (end - start) % U32;
    (start + length) % U32
  }

  class Context {
    const fb: array<int>
    const pitch: int
    const width: int
    const height: int
    var dirtyRects: seq<Rect>
    var clipRects: seq<Rect>
    var subtractRects: seq<Rect>
    /** How often each cell of the frame buffer has been written. */
    ghost var writes: seq<nat>

    function Screen(): Rect { Rect(0, 0, width, height) }

    ghost predicate Valid()
      reads this
    {
      && 0 <= width <= pitch && 0 <= height && width < U32 && height < U32
      && fb.Length == height * pitch && |writes| == fb.Length
    }

    /** A cell of the frame buffer; those from `width` on are padding. */
    predicate OnGrid(p: Point) { 0 <= p.x < pitch && 0 <= p.y < height }

    function Index(p: Point): int { p.y * pitch + p.x }

    lemma IndexBounds(p: Point)
      requires Valid() && OnGrid(p)
      ensures 0 <= Index(p) < fb.Length
    {
      RowBounds(p.y, height, pitch);
    }

    lemma IndexInjective(p: Point, q: Point)
      requires OnGrid(p) && OnGrid(q) && Index(p) == Index(q)
      ensures p == q
    {
      RowsApart(p.y, q.y, p.x, q.x, pitch);
    }

    ghost function Pixel(p: Point): int
      requires Valid() && OnGrid(p)
      reads this, fb
    {
      IndexBounds(p);
      fb[Index(p)]
    }

    /** So are the cells of the frame buffer, with `pitch` cells to a row. */
    lemma CellOf(p: Point)
      requires Valid() && OnGrid(p)
      ensures 0 <= p.y * pitch + p.x < fb.Length && Pixel(p) == fb[p.y * pitch + p.x]
    {
      IndexBounds(p);
    }

    ghost function Count(p: Point): int
      requires Valid() && OnGrid(p)
      reads this
    {
      IndexBounds(p);
      writes[Index(p)]
    }

    method SetPixel(p: Point, colour: int)
      requires Valid() && OnGrid(p)
      modifies fb, this`writes
      ensures Valid()
      ensures forall q :: OnGrid(q) ==>
        Pixel(q) == (if q == p then colour else old(Pixel(q))) && Count(q) == old(Count(q)) + if q == p then 1 else 0
    {
      IndexBounds(p);
      fb[Index(p)] := colour;
      writes := writes[Index(p) := writes[Index(p)] + 1];
      forall q | OnGrid(q)
        ensures Pixel(q) == if q == p then colour else old(Pixel(q))
        ensures Count(q) == old(Count(q)) + if q == p then 1 else 0
      {
        IndexBounds(q);
        if q != p && Index(q) == Index(p) {
          IndexInjective(q, p);
        }
      }
    }

    /** Every point of `region` has been written once more and has the colour that `colour` gives it; nothing else has
        changed. */
    twostate predicate Painted(region: Point -> bool, colour: Point -> int)
      requires old(Valid()) && Valid()
      reads this, fb
    {
      forall q :: OnGrid(q) ==>
        && Pixel(q) == (if region(q) then colour(q) else old(Pixel(q)))
        && Count(q) == old(Count(q)) + (if region(q) then 1 else 0)
    }

    /** Every point has been written `times` more; where that is more than 0 it has the colour that `colour` gives
        it. */
    twostate predicate Layered(times: Point -> nat, colour: Point -> int)
      requires old(Valid()) && Valid()
      reads this, fb
    {
      forall q :: OnGrid(q) ==>
        && Pixel(q) == (if times(q) > 0 then colour(q) else old(Pixel(q)))
        && Count(q) == old(Count(q)) + times(q)
    }

    method FillRow(x0: int, x1: int, y: int, colour: int)
      requires Valid() && 0 <= x0 && x1 <= pitch && 0 <= y < height
      modifies fb, this`writes
      ensures Valid() && Painted((q: Point) => x0 <= q.x < x1 && q.y == y, (q: Point) => colour)
    {
      var x := x0;
      while x < x1
        invariant x0 <= x && (x <= x1 || x == x0) && Valid()
        invariant Painted((q: Point) => x0 <= q.x < x && q.y == y, (q: Point) => colour)
      {
        SetPixel(Point(x, y), colour);
        x := x + 1;
      }
    }

    method FillBox(x0: int, x1: int, y0: int, y1: int, colour: int)
      requires Valid() && 0 <= x0 && x1 <= pitch && 0 <= y0 && y1 <= height
      modifies fb, this`writes
      ensures Valid() && Painted((q: Point) => x0 <= q.x < x1 && y0 <= q.y < y1, (q: Point) => colour)
    {
      var y := y0;
      while y < y1
        invariant y0 <= y && (y <= y1 || y == y0) && Valid()
        invariant Painted((q: Point) => x0 <= q.x < x1 && y0 <= q.y < y, (q: Point) => colour)
      {
        FillRow(x0, x1, y, colour);
        y := y + 1;
      }
    }

    /** The part of `rect` inside one clip rectangle; the 32-bit differences wrap when the two do not meet. */
    method FillClipped(rect: Rect, colour: int, clip: Rect)
      requires Valid() && Ok(rect) && Ok(clip) && Within(clip, Screen())
      modifies fb, this`writes
      ensures Valid() && Painted((q: Point) => Contains(rect, q) && Contains(clip, q), (q: Point) => colour)
    {
      if rect.x + rect.width <= clip.x || rect.y >= clip.y + clip.height {
        return;
      }
      var startX, endX := Max(rect.x, clip.x), Min(rect.x + rect.width, clip.x + clip.width);
      var startY, endY := Max(rect.y, clip.y), Min(rect.y + rect.height, clip.y + clip.height);
      FillBox(startX, LoopEnd(startX, endX), startY, LoopEnd(startY, endY), colour);
    }

    /** `draw_filled_rect`, which demands that no two clip rectangles intersect. */
    method DrawFilledRect(rect: Rect, colour: int)
      requires Valid() && Ok(rect) && AllOk(clipRects) && AllWithin(clipRects, Screen()) && Apart(clipRects)
      modifies fb, this`writes
      ensures var clip := clipRects;
        Valid() && Painted((q: Point) => Contains(rect, q) && Covers(clip, q), (q: Point) => colour)
    {
      var clip := clipRects;
      for k := 0 to |clip|
        invariant Valid() && Painted((q: Point) => Contains(rect, q) && Covers(clip[..k], q), (q: Point) => colour)
      {
        CoversPush(clip[..k], clip[k]);
        assert clip[..k + 1] == clip[..k] + [clip[k]];
        FillClipped(rect, colour, clip[k]);
        ApartCovers(clip, k);
      }
      assert clip[..|clip|] == clip;
    }

    /** One row of a bitmap is copied. */
    method CopyRow(pixels: seq<int>, content: Rect, x0: int, x1: int, y: int)
      requires Valid() && 0 <= x0 && x1 <= pitch && 0 <= y < height && |pixels| == content.width * content.height
      requires content.x <= x0 && x1 <= content.x + content.width && content.y <= y < content.y + content.height
      modifies fb, this`writes
      ensures Valid() && Painted((q: Point) => x0 <= q.x < x1 && q.y == y, (q: Point) => BitmapAt(pixels, content, q))
    {
      var from := (y - content.y) * content.width;
      var x := x0;
      while x < x1
        invariant x0 <= x && (x <= x1 || x == x0) && Valid()
        invariant Painted((q: Point) => x0 <= q.x < x && q.y == y, (q: Point) => BitmapAt(pixels, content, q))
      {
        RowBounds(y - content.y, content.height, content.width);
        SetPixel(Point(x, y), pixels[from + (x - content.x)]);
        x := x + 1;
      }
    }

    /** The part of a bitmap inside one clip rectangle. */
    method CopyClipped(pixels: seq<int>, content: Rect, clip: Rect)
      requires Valid() && Ok(content) && Ok(clip) && Within(clip, Screen())
      requires |pixels| == content.width * content.height
      modifies fb, this`writes
      ensures Valid()
      ensures Painted((q: Point) => Contains(content, q) && Contains(clip, q),
                      (q: Point) => BitmapAt(pixels, content, q))
    {
      if !Intersects(clip, content) {
        return;
      }
      var clipped := Intersect(content, clip);
      var y := clipped.y;
      while y < clipped.y + clipped.height
        invariant clipped.y <= y <= clipped.y + clipped.height && Valid()
        invariant Painted((q: Point) => Contains(clipped, q) && q.y < y, (q: Point) => BitmapAt(pixels, content, q))
      {
        CopyRow(pixels, content, clipped.x, clipped.x + clipped.width, y);
        y := y + 1;
      }
    }

    /** `draw_bitmap`: every point of the bitmap inside the clip list gets its pixel, once. */
    method DrawBitmap(pixels: seq<int>, content: Rect)
      requires Valid() && Ok(content) && AllOk(clipRects) && AllWithin(clipRects, Screen()) && Apart(clipRects)
      requires |pixels| == content.width * content.height < U32
      modifies fb, this`writes
      ensures var clip := clipRects;
        Valid() && Painted((q: Point) => Contains(content, q) && Covers(clip, q),
        (q: Point) => BitmapAt(pixels, content, q))
    {
      var clip := clipRects;
      for k := 0 to |clip|
        invariant Valid()
        invariant Painted((q: Point) => Contains(content, q) && Covers(clip[..k], q),
                          (q: Point) => BitmapAt(pixels, content, q))
      {
        CoversPush(clip[..k], clip[k]);
        assert clip[..k + 1] == clip[..k] + [clip[k]];
        CopyClipped(pixels, content, clip[k]);
        ApartCovers(clip, k);
      }
      assert clip[..|clip|] == clip;
    }

    /** Where the pixel in row `r` and column `c` of the bitmap goes. */
    method DrawBitmapPixel(pixels: seq<int>, content: Rect, r: int, c: int)
      requires Valid() && Ok(content) && AllOk(clipRects) && AllWithin(clipRects, Screen()) && Apart(clipRects)
      requires |pixels| == content.width * content.height < U32
      requires 0 <= r < content.height && 0 <= c < content.width
      requires Covers(clipRects, Point(content.x + c, content.y + r))
      modifies fb, this`writes
      ensures Valid() && 0 <= (content.y + r) * pitch + content.x + c < fb.Length
      ensures 0 <= r * content.width + c < |pixels|
      ensures fb[(content.y + r) * pitch + content.x + c] == pixels[r * content.width + c]
    {
      ghost var p := Point(content.x + c, content.y + r);
      PixelLands(pixels, content, r, c);
      CoveredOnScreen(clipRects, p);
      DrawBitmap(pixels, content);
      CellOf(p);
    }

    /** Clip rectangles lie on the screen. */
    lemma CoveredOnScreen(rects: seq<Rect>, p: Point)
      requires Valid() && AllWithin(rects, Screen()) && Covers(rects, p)
      ensures OnGrid(p)
    {
    }

    /** `add_clip_rect`: what the subtracted rectangles leave of `rect` is added to the clip list. */
    method AddClipRect(rect: Rect) returns (ghost added: seq<Rect>)
      requires Ok(rect) && AllOk(subtractRects)
      modifies this`clipRects
      ensures clipRects == old(clipRects) + added && AllOk(added) && Apart(added) && Refines(added, [rect])
      ensures forall p :: Covers(added, p) <==> Contains(rect, p) && !Covers(subtractRects, p)
    {
      var res := SubtractAll([rect], subtractRects);
      CoversPush([], rect);
      assert [] + [rect] == [rect];
      clipRects := clipRects + res;
      added := res;
    }

    /** The clip list is made anew from `rects`. */
    method SetClip(rects: seq<Rect>)
      requires AllOk(rects) && Apart(rects) && AllOk(subtractRects)
      modifies this`clipRects
      ensures AllOk(clipRects) && Apart(clipRects) && Refines(clipRects, rects)
      ensures forall p :: Covers(clipRects, p) <==> Covers(rects, p) && !Covers(subtractRects, p)
    {
      clipRects := [];
      for k := 0 to |rects|
        invariant AllOk(clipRects) && Apart(clipRects) && Refines(clipRects, rects[..k])
        invariant forall p :: Covers(clipRects, p) <==> Covers(rects[..k], p) && !Covers(subtractRects, p)
      {
        ghost var before := clipRects;
        var added := AddClipRect(rects[k]);
        ApartAppend(before, added, rects, k);
        CoversAppend(before, added);
        CoversPush(rects[..k], rects[k]);
        assert rects[..k + 1] == rects[..k] + [rects[k]];
      }
      assert rects[..|rects|] == rects;
    }

    /** `w` draws where none of its children lies. */
    method DrawOwn(w: Window, clip: seq<Rect>)
      requires Valid() && Nested(w) && AllOk(subtractRects) && AllOk(clip) && Apart(clip) && AllWithin(clip, Screen())
      modifies fb, this`writes, this`clipRects
      ensures var cursor := subtractRects;
        && Valid()
        && Painted((q: Point) =>
                     Contains(w.outer, q) && Covers(clip, q) && !Covers(cursor, q) && LastAt(w.children, q) < 0,
                   (q: Point) => w.colour)
    {
      var own := SubtractAll(clip, Outers(w.children));
      SetClip(own);
      RefinesTransitive(clipRects, own, clip);
      RefinesWithin(clipRects, clip, Screen());
      forall q {:trigger LastAt(w.children, q)}
        ensures Covers(Outers(w.children), q) <==> LastAt(w.children, q) >= 0
      {
        OutersCover(w.children, q);
      }
      DrawFilledRect(w.outer, w.colour);
    }

    /** The window and all windows inside it are drawn: every point of the region shows the topmost of them. */
    method DrawClipped(w: Window, clip: seq<Rect>)
      requires Valid() && Nested(w) && AllOk(subtractRects) && AllOk(clip) && Apart(clip) && AllWithin(clip, Screen())
      modifies fb, this`writes, this`clipRects
      ensures var cursor := subtractRects;
        && Valid()
        && Painted((q: Point) => Contains(w.outer, q) && Covers(clip, q) && !Covers(cursor, q),
                   (q: Point) => TopColour(w, q))
      decreases w, 0
    {
      ghost var cursor := subtractRects;
      DrawOwn(w, clip);
      for k := 0 to |w.children|
        invariant Valid()
        invariant Painted((q: Point) =>
                            Contains(w.outer, q) && Covers(clip, q) && !Covers(cursor, q) && LastAt(w.children, q) < k,
                          (q: Point) => TopColour(w, q))
      {
        DrawChild(w.children, k, clip);
      }
    }

    /** A window draws where no sibling lies above it. */
    method DrawChild(siblings: seq<Window>, k: int, parentClip: seq<Rect>)
      requires 0 <= k < |siblings| && forall i :: 0 <= i < |siblings| ==> Nested(siblings[i])
      requires Valid() && AllOk(subtractRects) && AllOk(parentClip) && Apart(parentClip)
      requires AllWithin(parentClip, Screen())
      modifies fb, this`writes, this`clipRects
      ensures var cursor := subtractRects;
        && Valid()
        && Painted((q: Point) => LastAt(siblings, q) == k && Covers(parentClip, q) && !Covers(cursor, q),
                   (q: Point) => TopColour(siblings[k], q))
      decreases siblings, 1
    {
      var clip := SubtractAll(parentClip, Outers(siblings[k + 1..]));
      RefinesWithin(clip, parentClip, Screen());
      DrawClipped(siblings[k], clip);
      forall q {:trigger LastAt(siblings, q)}
        ensures Contains(siblings[k].outer, q) && !Covers(Outers(siblings[k + 1..]), q) <==> LastAt(siblings, q) == k
      {
        AboveCover(siblings, k, q);
      }
    }

    /** `draw_generic` on the root window: the dirty rectangles are the region to draw. */
    method DrawRoot(w: Window)
      requires Valid() && Nested(w) && AllOk(subtractRects) && AllOk(dirtyRects) && AllWithin(dirtyRects, Screen())
      modifies fb, this`writes, this`clipRects
      ensures var dirty, cursor := dirtyRects, subtractRects;
        && Valid()
        && Painted((q: Point) => Contains(w.outer, q) && Covers(dirty, q) && !Covers(cursor, q),
                   (q: Point) => TopColour(w, q))
    {
      var clip := Disjoin(dirtyRects);
      RefinesWithin(clip, dirtyRects, Screen());
      DrawClipped(w, clip);
    }

    /** The root windows are drawn one after the other: later ones over earlier ones. */
    method DrawRoots(ws: seq<Window>)
      requires Valid() && (forall i :: 0 <= i < |ws| ==> Nested(ws[i])) && AllOk(subtractRects)
      requires AllOk(dirtyRects) && AllWithin(dirtyRects, Screen())
      modifies fb, this`writes, this`clipRects
      ensures var dirty, cursor := dirtyRects, subtractRects;
        && Valid()
        && Layered((q: Point) => if Covers(dirty, q) && !Covers(cursor, q) then Layers(ws, q) else 0,
                   (q: Point) => TopOf(ws, q))
    {
      ghost var dirty, cursor := dirtyRects, subtractRects;
      for k := 0 to |ws|
        invariant Valid()
        invariant Layered((q: Point) => if Covers(dirty, q) && !Covers(cursor, q) then Layers(ws[..k], q) else 0,
                          (q: Point) => TopOf(ws[..k], q))
      {
        DrawRoot(ws[k]);
        forall q {:trigger Layers(ws[..k + 1], q)} {:trigger TopOf(ws[..k + 1], q)}
          ensures var here := Contains(ws[k].outer, q);
            && Layers(ws[..k + 1], q) == Layers(ws[..k], q) + (if here then 1 else 0)
            && TopOf(ws[..k + 1], q) == if here then TopColour(ws[k], q) else TopOf(ws[..k], q)
        {
          NextLayer(ws, k, q);
        }
      }
      assert ws[..|ws|] == ws;
    }

    /** `Gui::draw`: the windows, and over them the cursor, which the windows do not draw under. */
    method Draw(ws: seq<Window>, drawCursor: bool, mouse: Point)
      requires Valid() && (forall i :: 0 <= i < |ws| ==> Nested(ws[i])) && subtractRects == []
      requires AllOk(dirtyRects) && AllWithin(dirtyRects, Screen()) && Ok(Rect(mouse.x, mouse.y, 10, 10))
      modifies fb, this
      ensures var dirty := old(dirtyRects); var cursor := if drawCursor then [Rect(mouse.x, mouse.y, 10, 10)] else [];
        && Valid() && subtractRects == []
        && dirtyRects == []
        && (dirty == [] ==> Layered((q: Point) => 0, (q: Point) => 0))
        && (dirty != [] ==>
              Layered((q: Point) => if Covers(cursor, q) then (if Contains(Screen(), q) then 1 else 0)
                                    else if Covers(dirty, q) then Layers(ws, q) else 0,
                      (q: Point) => if Covers(cursor, q) then 0xFF0000 else TopOf(ws, q)))
    {
      if dirtyRects == [] {
        return;
      }
      var mouseRect := Rect(mouse.x, mouse.y, 10, 10);
      CoversOne(mouseRect);
      CoversOne(Screen());
      if drawCursor {
        subtractRects := subtractRects + [mouseRect];
        assert subtractRects == [mouseRect];
      }
      DrawRoots(ws);
      if drawCursor {
        subtractRects := [];
        clipRects := [Screen()];
        DrawFilledRect(mouseRect, 0xFF0000);
      }
      dirtyRects := [];
    }
  }

  lemma CoversOne(r: Rect)
    ensures forall p :: Covers([r], p) <==> Contains(r, p)
  {
    CoversPush([], r);
    assert [] + [r] == [r];
  }

  lemma RefinesWithin(s: seq<Rect>, t: seq<Rect>, o: Rect)
    requires Refines(s, t) && AllWithin(t, o)
    ensures AllWithin(s, o)
  {
  }

  lemma ApartCovers(s: seq<Rect>, k: int)
    requires 0 <= k < |s| && Apart(s)
    ensures forall p :: Contains(s[k], p) ==> !Covers(s[..k], p)
  {
    forall p | Contains(s[k], p)
      ensures !Covers(s[..k], p)
    {
      forall i | 0 <= i < k ensures !Contains(s[..k][i], p) {
        assert !Intersects(s[i], s[k]);
      }
    }
  }
}
