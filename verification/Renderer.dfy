/** The software renderer: copying the visible part of a surface into the back buffer,
    and composing a stack of windows.

    The reference is the painter's algorithm, which draws whole windows from back to
    front.  Composing draws every pixel of a window at most once and may do so in any
    order. */
module Renderer {
  import opened Arith
  import opened Options
  import opened Geometry

  type Colour = U32

  const TITLE_BAR_HEIGHT: int := 20

  /** A source buffer and where it goes on the screen. */
  datatype Surface = Surface(rect: Rect, pixels: seq<Colour>) {
    predicate Sized() {
      && |pixels| >= rect.height * rect.width
      && rect.height * rect.width < 0x1_0000_0000
    }
  }

  // ----- Rows and columns -------------------------------------------------

  /** Where pixel (`x`, `y`) of a buffer `w` pixels wide is kept. */
  function Index(w: int, x: int, y: int): int { y * w + x }

  lemma IndexInBounds(w: int, h: int, x: int, y: int)
    requires 0 <= x < w && 0 <= y < h
    ensures 0 <= Index(w, x, y) < h * w
  {
    assert 0 <= y * w;
    assert (y + 1) * w <= h * w;
  }

  lemma RowsApart(w: int, y: int, row: int)
    requires 0 <= w && y < row
    ensures y * w + w <= row * w
  {
    MulNonneg(row - y - 1, w);
    assert row * w == y * w + w + (row - y - 1) * w;
  }

  /** A run of `n` pixels from (`x0`, `row`) holds exactly the pixels of that row. */
  lemma RowHolds(w: int, x0: int, n: int, row: int, x: int, y: int)
    requires 0 <= x0 && 0 <= n && x0 + n <= w && 0 <= x < w
    ensures Index(w, x0, row) <= Index(w, x, y) < Index(w, x0, row) + n <==> y == row && x0 <= x < x0 + n
    ensures y == row ==> Index(w, x, y) - Index(w, x0, row) == x - x0
  {
    if y < row {
      RowsApart(w, y, row);
    } else if y > row {
      RowsApart(w, row, y);
    }
  }

  predicate Grid(w: int, h: int, p: Pixel) { 0 <= p.x < w && 0 <= p.y < h }

  predicate FrameSized(frame: seq<Colour>, w: U32, h: U32) { |frame| >= h * w && h * w < 0x1_0000_0000 }

  function At(frame: seq<Colour>, w: U32, h: U32, p: Pixel): Colour
    requires FrameSized(frame, w, h) && Grid(w, h, p)
  {
    IndexInBounds(w, h, p.x, p.y);
    frame[Index(w, p.x, p.y)]
  }

  /** The colour a surface has for screen pixel `p`. */
  function Source(s: Surface, p: Pixel): Colour
    requires s.Sized() && Covers(s.rect, p)
  {
    IndexInBounds(s.rect.width, s.rect.height, p.x - s.rect.x, p.y - s.rect.y);
    s.pixels[Index(s.rect.width, p.x - s.rect.x, p.y - s.rect.y)]
  }

  // ----- One blit ---------------------------------------------------------

  function Screen(w: U32, h: U32): Rect { Rect(0, 0, w, h) }

  /** The pixels one blit writes. */
  ghost predicate Shown(s: Surface, clip: Rect, occs: seq<Rect>, w: U32, h: U32, p: Pixel) {
    && Covers(Screen(w, h), p)
    && var target := Intersect(s.rect, clip);
    target.Some? && Hidden(Visible(target.value, occs), p)
  }

  lemma ShownIsInside(s: Surface, clip: Rect, occs: seq<Rect>, w: U32, h: U32, p: Pixel)
    requires Shown(s, clip, occs, w, h, p)
    ensures Grid(w, h, p) && Covers(s.rect, p) && Covers(clip, p) && !Hidden(occs, p)
  {
    hide Visible;
    var target := Intersect(s.rect, clip);
    VisibleFragments(target.value, occs);
  }

  ghost predicate Fits32(s: Surface, clip: Rect, occs: seq<Rect>) {
    var target := Intersect(s.rect, clip);
    target.Some? ==> Roomy([target.value], occs)
  }

  /** A blit writes the target inside the clip and the screen, less the occluders; with
      no more than 32 fragments at any stage it writes all of it. */
  lemma BlitArea(s: Surface, clip: Rect, occs: seq<Rect>, w: U32, h: U32, p: Pixel)
    ensures Shown(s, clip, occs, w, h, p) ==>
              Covers(s.rect, p) && Covers(clip, p) && Covers(Screen(w, h), p) && !Hidden(occs, p)
    ensures Fits32(s, clip, occs) ==>
              (Shown(s, clip, occs, w, h, p) <==>
               Covers(s.rect, p) && Covers(clip, p) && Covers(Screen(w, h), p) && !Hidden(occs, p))
  {
    hide Visible;
    var target := Intersect(s.rect, clip);
    if target.Some? { VisibleFragments(target.value, occs); }
  }

  /** Equal sizes, and equal from element `n` on. */
  ghost predicate SameFrom(a: seq<Colour>, b: seq<Colour>, n: int) {
    |a| == |b| && forall i :: n <= i < |b| && 0 <= i ==> a[i] == b[i]
  }

  /** The frame after a blit: shown pixels hold the surface's colour, all others and all
      memory past the last row are as before. */
  ghost predicate Blitted(before: seq<Colour>, after: seq<Colour>, w: U32, h: U32, s: Surface, clip: Rect, occs: seq<Rect>)
    requires FrameSized(before, w, h) && s.Sized()
  {
    && FrameSized(after, w, h) && SameFrom(after, before, h * w)
    && (forall p: Pixel :: Grid(w, h, p) ==> At(after, w, h, p) == BlitAt(before, w, h, s, clip, occs, p))
  }

  ghost function BlitAt(before: seq<Colour>, w: U32, h: U32, s: Surface, clip: Rect, occs: seq<Rect>, p: Pixel): Colour
    requires FrameSized(before, w, h) && s.Sized() && Grid(w, h, p)
  {
    if Shown(s, clip, occs, w, h, p) then ShownIsInside(s, clip, occs, w, h, p); Source(s, p) else At(before, w, h, p)
  }

  /** A blit in numbers: row `y`, column `x` of the frame is element `y * w + x`. */
  lemma BlitInNumbers(before: seq<Colour>, after: seq<Colour>, w: U32, h: U32, s: Surface, clip: Rect, occs: seq<Rect>, x: nat, y: nat)
    requires FrameSized(before, w, h) && s.Sized() && Blitted(before, after, w, h, s, clip, occs) && Fits32(s, clip, occs)
    requires x < w < 0x8000_0000 && y < h < 0x8000_0000
    ensures var p := Pixel(x, y); var i, j := y * w + x, (y - s.rect.y) * s.rect.width + (x - s.rect.x);
            && 0 <= i < |after| == |before|
            && if InRect(s.rect, p) && InRect(clip, p) && (forall k :: 0 <= k < |occs| ==> !InRect(occs[k], p)) then
                 0 <= j < |s.pixels| && after[i] == s.pixels[j]
               else after[i] == before[i]
  {
    var p := Pixel(x, y);
    hide Shown;
    IndexInBounds(w, h, x, y);
    BlitArea(s, clip, occs, w, h, p);
    CoversInNumbers(s.rect, p);
    CoversInNumbers(clip, p);
    forall k | 0 <= k < |occs| ensures Covers(occs[k], p) <==> InRect(occs[k], p) { CoversInNumbers(occs[k], p); }
    assert At(after, w, h, p) == BlitAt(before, w, h, s, clip, occs, p);
    if Covers(s.rect, p) { IndexInBounds(s.rect.width, s.rect.height, x - s.rect.x, y - s.rect.y); }
  }

  // ----- The code ---------------------------------------------------------

  /** One scanline, `copy_from_slice`. */
  method CopyRow(bb: array<Colour>, dst: nat, src: seq<Colour>, from: nat, n: nat)
    requires dst + n <= bb.Length && from + n <= |src|
    modifies bb
    ensures forall i :: 0 <= i < bb.Length ==> bb[i] == if dst <= i < dst + n then src[from + i - dst] else old(bb[i])
  {
    for k := 0 to n
      invariant forall i :: 0 <= i < bb.Length ==> bb[i] == if dst <= i < dst + k then src[from + i - dst] else old(bb[i])
    {
      bb[dst + k] := src[from + k];
    }
  }

  /** Rows `rc.y` to `to` of a fragment have been copied. */
  ghost predicate RowsDone(before: seq<Colour>, after: seq<Colour>, w: U32, h: U32, s: Surface, rc: Rect, to: int)
    requires FrameSized(before, w, h) && s.Sized() && FragmentOf(s, rc, w, h)
  {
    && FrameSized(after, w, h) && SameFrom(after, before, h * w)
    && (forall p: Pixel :: Grid(w, h, p) ==>
          At(after, w, h, p) == if Covers(rc, p) && p.y < to then Source(s, p) else At(before, w, h, p))
  }

  /** `rc` lies inside the surface and the screen. */
  ghost predicate FragmentOf(s: Surface, rc: Rect, w: U32, h: U32) {
    && rc.Fits() && !rc.IsEmpty()
    && (forall p: Pixel :: Covers(rc, p) ==> Covers(s.rect, p) && Grid(w, h, p))
  }

  /** The edges of a fragment, from its corner pixels. */
  lemma Corners(s: Surface, rc: Rect, w: U32, h: U32)
    requires FragmentOf(s, rc, w, h)
    ensures 0 <= rc.x && rc.x + rc.width <= w && 0 <= rc.y && rc.y + rc.height <= h
    ensures s.rect.x <= rc.x && rc.x + rc.width <= s.rect.x + s.rect.width
    ensures s.rect.y <= rc.y && rc.y + rc.height <= s.rect.y + s.rect.height
    ensures rc.Right() == rc.x + rc.width && rc.Bottom() == rc.y + rc.height
  {
    assert Covers(rc, Pixel(rc.x, rc.y));
    assert Covers(rc, Pixel(rc.x + rc.width - 1, rc.y + rc.height - 1));
  }

  ghost predicate Edges(s: Surface, rc: Rect, w: U32) {
    && 0 <= rc.x && rc.x + rc.width <= w && rc.Right() == rc.x + rc.width
    && s.rect.x <= rc.x && rc.x + rc.width <= s.rect.x + s.rect.width
  }

  ghost predicate OnRow(rc: Rect, row: int, p: Pixel) { Covers(rc, p) && p.y == row }

  /** Where a pixel lies relative to the row, in the frame and in the surface. */
  lemma PixelOffset(s: Surface, rc: Rect, w: U32, row: int, p: Pixel)
    requires Edges(s, rc, w) && 0 <= p.x < w && rc.y <= row < rc.Bottom()
    ensures var dst, i := Index(w, rc.x, row), Index(w, p.x, p.y);
            var from, j := Index(s.rect.width, rc.x - s.rect.x, row - s.rect.y),
                           Index(s.rect.width, p.x - s.rect.x, p.y - s.rect.y);
            (OnRow(rc, row, p) <==> dst <= i < dst + rc.width) && (OnRow(rc, row, p) ==> j == from + i - dst)
  {
    hide Index;
    RowHolds(w, rc.x, rc.width, row, p.x, p.y);
    if OnRow(rc, row, p) {
      RowHolds(s.rect.width, rc.x - s.rect.x, rc.width, row - s.rect.y, p.x - s.rect.x, p.y - s.rect.y);
    }
  }

  /** One pixel after the copy of one row. */
  lemma RowPixel(mid: seq<Colour>, after: seq<Colour>, w: U32, h: U32, s: Surface, rc: Rect, row: int, p: Pixel)
    requires FrameSized(mid, w, h) && |after| == |mid| && s.Sized() && Edges(s, rc, w) && Grid(w, h, p)
    requires rc.y <= row < rc.Bottom() && (OnRow(rc, row, p) ==> Covers(s.rect, p))
    requires var dst := Index(w, rc.x, row); var from := Index(s.rect.width, rc.x - s.rect.x, row - s.rect.y);
             && 0 <= dst && dst + rc.width <= h * w && 0 <= from && from + rc.width <= |s.pixels|
             && forall i :: 0 <= i < |mid| ==>
                  after[i] == if dst <= i < dst + rc.width then s.pixels[from + i - dst] else mid[i]
    ensures At(after, w, h, p) == if OnRow(rc, row, p) then Source(s, p) else At(mid, w, h, p)
  {
    hide Index, OnRow;
    PixelOffset(s, rc, w, row, p);
    IndexInBounds(w, h, p.x, p.y);
  }

  /** One more row. */
  lemma RowStep(before: seq<Colour>, mid: seq<Colour>, after: seq<Colour>, w: U32, h: U32, s: Surface, rc: Rect, row: int)
    requires FrameSized(before, w, h) && s.Sized() && FragmentOf(s, rc, w, h)
    requires rc.y <= row < rc.Bottom() && RowsDone(before, mid, w, h, s, rc, row) && |after| == |mid|
    requires var dst := Index(w, rc.x, row); var from := Index(s.rect.width, rc.x - s.rect.x, row - s.rect.y);
             && 0 <= dst && dst + rc.width <= h * w && 0 <= from && from + rc.width <= |s.pixels|
             && forall i :: 0 <= i < |mid| ==>
                  after[i] == if dst <= i < dst + rc.width then s.pixels[from + i - dst] else mid[i]
    ensures RowsDone(before, after, w, h, s, rc, row + 1)
  {
    hide Index, At, Source;
    forall p: Pixel | Grid(w, h, p)
      ensures At(after, w, h, p) == if Covers(rc, p) && p.y < row + 1 then Source(s, p) else At(before, w, h, p)
    {
      Corners(s, rc, w, h);
      RowPixel(mid, after, w, h, s, rc, row, p);
      assert At(mid, w, h, p) == if Covers(rc, p) && p.y < row then Source(s, p) else At(before, w, h, p);
      assert Covers(rc, p) && p.y < row + 1 <==> (Covers(rc, p) && p.y < row) || OnRow(rc, row, p);
    }
  }

  /** The offsets of a row, which the code computes in 32 bits. */
  lemma RowFits(w: U32, h: U32, s: Surface, rc: Rect, row: int)
    requires h * w < 0x1_0000_0000 && s.Sized() && FragmentOf(s, rc, w, h) && rc.y <= row < rc.Bottom()
    ensures var dst := Index(w, rc.x, row); var from := Index(s.rect.width, rc.x - s.rect.x, row - s.rect.y);
            && 0 <= dst && dst + rc.width <= h * w && dst % 0x1_0000_0000 == dst
            && 0 <= from && from + rc.width <= |s.pixels| && from % 0x1_0000_0000 == from
  {
    Corners(s, rc, w, h);
    IndexInBounds(w, h, rc.x, row);
    IndexInBounds(w, h, rc.x + rc.width - 1, row);
    IndexInBounds(s.rect.width, s.rect.height, rc.x - s.rect.x, row - s.rect.y);
    IndexInBounds(s.rect.width, s.rect.height, rc.x + rc.width - 1 - s.rect.x, row - s.rect.y);
  }

  /** The scanline loop over one fragment. */
  method CopyFragment(bb: array<Colour>, w: U32, h: U32, s: Surface, rc: Rect)
    requires FrameSized(bb[..], w, h) && s.Sized() && FragmentOf(s, rc, w, h)
    modifies bb
    ensures RowsDone(old(bb[..]), bb[..], w, h, s, rc, rc.Bottom())
  {
    Corners(s, rc, w, h);
    ghost var before := bb[..];
    for row := rc.y to rc.Bottom()
      invariant RowsDone(before, bb[..], w, h, s, rc, row)
    {
      hide RowsDone, FragmentOf, Index;
      var localY, localX := row - s.rect.y, rc.x - s.rect.x;
      RowFits(w, h, s, rc, row);
      var from := Index(s.rect.width, localX, localY) % 0x1_0000_0000;
      var dst := Index(w, rc.x, row) % 0x1_0000_0000;
      ghost var mid := bb[..];
      assert |mid| == |before| by { SameSize(before, mid, w, h, s, rc, row); }
      CopyRow(bb, dst, s.pixels, from, rc.width);
      RowStep(before, mid, bb[..], w, h, s, rc, row);
    }
  }

  lemma SameSize(before: seq<Colour>, after: seq<Colour>, w: U32, h: U32, s: Surface, rc: Rect, to: int)
    requires FrameSized(before, w, h) && s.Sized() && FragmentOf(s, rc, w, h)
    requires RowsDone(before, after, w, h, s, rc, to)
    ensures |after| == |before|
  {
  }

  /** The fragments `vs` have been copied. */
  ghost predicate FragmentsDone(before: seq<Colour>, after: seq<Colour>, w: U32, h: U32, s: Surface, vs: seq<Rect>)
    requires FrameSized(before, w, h) && s.Sized() && AllInside(s, vs)
  {
    && FrameSized(after, w, h) && SameFrom(after, before, h * w)
    && (forall p: Pixel :: Grid(w, h, p) ==> At(after, w, h, p) == FragmentsAt(before, w, h, s, vs, p))
  }

  ghost predicate AllInside(s: Surface, vs: seq<Rect>) { forall p: Pixel :: Hidden(vs, p) ==> Covers(s.rect, p) }

  ghost function FragmentsAt(before: seq<Colour>, w: U32, h: U32, s: Surface, vs: seq<Rect>, p: Pixel): Colour
    requires FrameSized(before, w, h) && s.Sized() && AllInside(s, vs) && Grid(w, h, p)
  {
    if Hidden(vs, p) && Covers(Screen(w, h), p) then Source(s, p) else At(before, w, h, p)
  }

  /** A fragment with no pixel on the screen is skipped. */
  lemma FragmentSkipped(before: seq<Colour>, now: seq<Colour>, w: U32, h: U32, s: Surface, vs: seq<Rect>, r: Rect)
    requires FrameSized(before, w, h) && s.Sized() && AllInside(s, vs) && AllInside(s, vs + [r])
    requires FragmentsDone(before, now, w, h, s, vs) && Intersect(r, Screen(w, h)).None?
    ensures FragmentsDone(before, now, w, h, s, vs + [r])
  {
    forall p: Pixel | Grid(w, h, p) ensures At(now, w, h, p) == FragmentsAt(before, w, h, s, vs + [r], p) {
      hide Hidden;
      HiddenSnoc(vs, r, p);
      assert At(now, w, h, p) == FragmentsAt(before, w, h, s, vs, p);
    }
  }

  lemma FragmentStep(before: seq<Colour>, mid: seq<Colour>, now: seq<Colour>, w: U32, h: U32, s: Surface,
                     vs: seq<Rect>, r: Rect, rc: Rect)
    requires FrameSized(before, w, h) && s.Sized() && AllInside(s, vs) && AllInside(s, vs + [r])
    requires FragmentsDone(before, mid, w, h, s, vs) && Intersect(r, Screen(w, h)) == Some(rc) && FragmentOf(s, rc, w, h)
    requires RowsDone(mid, now, w, h, s, rc, rc.Bottom())
    ensures FragmentsDone(before, now, w, h, s, vs + [r])
  {
    forall p: Pixel | Grid(w, h, p) ensures At(now, w, h, p) == FragmentsAt(before, w, h, s, vs + [r], p) {
      assert Covers(rc, p) <==> Covers(r, p) && Covers(Screen(w, h), p);
      hide Hidden, Intersect;
      HiddenSnoc(vs, r, p);
      assert At(mid, w, h, p) == FragmentsAt(before, w, h, s, vs, p);
      assert At(now, w, h, p) == if Covers(rc, p) && p.y < rc.Bottom() then Source(s, p) else At(mid, w, h, p);
    }
  }

  lemma FragmentIsInside(s: Surface, r: Rect, rc: Rect, w: U32, h: U32)
    requires Intersect(r, Screen(w, h)) == Some(rc) && forall p: Pixel :: Covers(r, p) ==> Covers(s.rect, p)
    ensures FragmentOf(s, rc, w, h)
  {
    forall p: Pixel | Covers(rc, p) ensures Covers(s.rect, p) && Grid(w, h, p) {
      assert Covers(r, p) && Covers(Screen(w, h), p);
    }
  }

  ghost predicate EachInside(s: Surface, vs: seq<Rect>) {
    forall k, p: Pixel :: 0 <= k < |vs| && Covers(vs[k], p) ==> Covers(s.rect, p)
  }

  lemma PrefixInside(s: Surface, vs: seq<Rect>, k: nat)
    requires EachInside(s, vs) && k <= |vs|
    ensures AllInside(s, vs[..k])
  {
    forall p: Pixel | Hidden(vs[..k], p) ensures Covers(s.rect, p) {
      var m :| 0 <= m < |vs[..k]| && Covers(vs[..k][m], p);
      assert Covers(vs[m], p);
    }
  }

  lemma NoneDone(before: seq<Colour>, w: U32, h: U32, s: Surface)
    requires FrameSized(before, w, h) && s.Sized()
    ensures AllInside(s, []) && FragmentsDone(before, before, w, h, s, [])
  {
    hide At;
  }

  /** The loop over the visible fragments. */
  method CopyFragments(bb: array<Colour>, w: U32, h: U32, s: Surface, vis: array<Rect>, n: nat)
    requires FrameSized(bb[..], w, h) && s.Sized() && n <= vis.Length
    requires EachInside(s, vis[..n]) && AllInside(s, vis[..n])
    modifies bb
    ensures FragmentsDone(old(bb[..]), bb[..], w, h, s, vis[..n])
  {
    ghost var before, vs := bb[..], vis[..n];
    hide FragmentsDone, AllInside, FragmentOf, RowsDone, EachInside, Intersect;
    NoneDone(before, w, h, s);
    assert vs[..0] == [];
    for i := 0 to n
      invariant vis[..n] == vs && |bb[..]| == |before| && AllInside(s, vs[..i])
      invariant FragmentsDone(before, bb[..], w, h, s, vs[..i])
    {
      PrefixInside(s, vs, i + 1);
      assert vs[..i + 1] == vs[..i] + [vs[i]] && vis[i] == vs[i];
      var rc := Intersect(vis[i], Screen(w, h));
      if rc.Some? {
        OneInside(s, vs, i);
        FragmentIsInside(s, vs[i], rc.value, w, h);
        ghost var mid := bb[..];
        CopyFragment(bb, w, h, s, rc.value);
        FragmentStep(before, mid, bb[..], w, h, s, vs[..i], vs[i], rc.value);
      } else {
        FragmentSkipped(before, bb[..], w, h, s, vs[..i], vs[i]);
      }
    }
    assert vs[..n] == vs;
  }

  lemma OneInside(s: Surface, vs: seq<Rect>, k: nat)
    requires EachInside(s, vs) && k < |vs|
    ensures forall p: Pixel :: Covers(vs[k], p) ==> Covers(s.rect, p)
  {
  }

  /** Copying all visible fragments is the blit. */
  lemma FragmentsAreBlit(before: seq<Colour>, after: seq<Colour>, w: U32, h: U32, s: Surface, clip: Rect, occs: seq<Rect>,
                         target: Rect)
    requires FrameSized(before, w, h) && s.Sized() && Intersect(s.rect, clip) == Some(target)
    requires AllInside(s, Visible(target, occs)) && FragmentsDone(before, after, w, h, s, Visible(target, occs))
    ensures Blitted(before, after, w, h, s, clip, occs)
  {
    hide Visible, Hidden, Covers, At, Source, Intersect;
  }

  /** Fragments of the visible part lie inside the surface. */
  lemma VisibleInside(s: Surface, clip: Rect, occs: seq<Rect>, target: Rect)
    requires Intersect(s.rect, clip) == Some(target)
    ensures EachInside(s, Visible(target, occs)) && AllInside(s, Visible(target, occs))
  {
    hide Visible;
    VisibleFragments(target, occs);
  }

  lemma NothingShown(before: seq<Colour>, w: U32, h: U32, s: Surface, clip: Rect, occs: seq<Rect>)
    requires FrameSized(before, w, h) && s.Sized() && Intersect(s.rect, clip).None?
    ensures Blitted(before, before, w, h, s, clip, occs)
  {
    hide At;
  }

  /** `CpuRenderer::blit_surface_clipped`. */
  method BlitSurfaceClipped(bb: array<Colour>, w: U32, h: U32, s: Surface, clip: Rect, occluders: seq<Rect>)
    requires FrameSized(bb[..], w, h) && s.Sized()
    modifies bb
    ensures Blitted(old(bb[..]), bb[..], w, h, s, clip, occluders)
  {
    hide Visible, Intersect, Blitted, AllInside, FragmentsDone, EachInside;
    var target := Intersect(s.rect, clip);
    if target.None? {
      NothingShown(bb[..], w, h, s, clip, occluders);
      return;
    }
    var vis := new Rect[32](_ => Rect(0, 0, 0, 0));
    var n := ComputeVisibleRects(target.value, occluders, vis);
    ghost var before := bb[..];
    VisibleInside(s, clip, occluders, target.value);
    CopyFragments(bb, w, h, s, vis, n);
    FragmentsAreBlit(before, bb[..], w, h, s, clip, occluders, target.value);
  }

  // ----- Windows ----------------------------------------------------------

  /** A window: a title bar sits on top of its content. */
  datatype Window = Window(x: I32, y: I32, width: U32, height: U32, title: seq<Colour>, content: seq<Colour>) {
    /** Its outer edges can be computed and both its buffers are large enough. */
    predicate Placed() {
      && y - TITLE_BAR_HEIGHT >= MIN_I32 && height + TITLE_BAR_HEIGHT <= MAX_I32
      && Bar().Sized() && Body().Sized()
    }

    function Bar(): Surface
      requires y - TITLE_BAR_HEIGHT >= MIN_I32
    {
      Surface(Rect(x, y - TITLE_BAR_HEIGHT, width, TITLE_BAR_HEIGHT), title)
    }

    function Body(): Surface { Surface(Rect(x, y, width, height), content) }

    function Bounds(): Rect
      requires y - TITLE_BAR_HEIGHT >= MIN_I32 && height + TITLE_BAR_HEIGHT <= MAX_I32
    {
      Rect(x, y - TITLE_BAR_HEIGHT, width, height + TITLE_BAR_HEIGHT)
    }
  }

  type Stack = ws: seq<Window> | forall i :: 0 <= i < |ws| ==> ws[i].Placed()

  /** Bar and body together fill the bounds and do not overlap. */
  lemma BarAndBody(win: Window, p: Pixel)
    requires win.Placed()
    ensures Covers(win.Bounds(), p) <==> Covers(win.Bar().rect, p) || Covers(win.Body().rect, p)
    ensures !(Covers(win.Bar().rect, p) && Covers(win.Body().rect, p))
  {
  }

  function AllBounds(ws: Stack): (bs: seq<Rect>)
    ensures |bs| == |ws| && forall i :: 0 <= i < |ws| ==> bs[i] == ws[i].Bounds()
  {
    if ws == [] then [] else AllBounds(ws[..|ws| - 1]) + [ws[|ws| - 1].Bounds()]
  }

  /** The bounds of the windows above window `i`. */
  function Above(ws: Stack, i: nat): seq<Rect>
    requires i < |ws|
  {
    AllBounds(ws)[i + 1..]
  }

  /** The topmost window over `p`, if any, among the first `n`. */
  function Top(ws: Stack, n: nat, p: Pixel): (r: Option<nat>)
    requires n <= |ws|
    ensures r.None? ==> forall i :: 0 <= i < n ==> !Covers(ws[i].Bounds(), p)
    ensures r.Some? ==> r.value < n && Covers(ws[r.value].Bounds(), p)
                        && forall i :: r.value < i < n ==> !Covers(ws[i].Bounds(), p)
  {
    if n == 0 then None else if Covers(ws[n - 1].Bounds(), p) then Some(n - 1) else Top(ws, n - 1, p)
  }

  lemma UncoveredIsTop(ws: Stack, i: nat, p: Pixel)
    requires i < |ws|
    ensures Covers(ws[i].Bounds(), p) && !Hidden(Above(ws, i), p) <==> Top(ws, |ws|, p) == Some(i)
  {
    hide Covers, Window.Bounds;
    var up := Above(ws, i);
    assert forall k :: 0 <= k < |up| ==> up[k] == ws[i + 1 + k].Bounds();
    assert forall k :: i < k < |ws| ==> ws[k].Bounds() == up[k - i - 1];
  }

  function WindowColour(win: Window, p: Pixel): Colour
    requires win.Placed() && Covers(win.Bounds(), p)
  {
    BarAndBody(win, p);
    if Covers(win.Bar().rect, p) then Source(win.Bar(), p) else Source(win.Body(), p)
  }

  // ----- Composing --------------------------------------------------------

  /** One blit of a pass: the bar or the body of a window. */
  datatype Job = Job(win: nat, bar: bool)

  predicate Jobs(ws: Stack, jobs: seq<Job>) { forall k :: 0 <= k < |jobs| ==> jobs[k].win < |ws| }

  /** Every part of every window is drawn, perhaps more than once. */
  ghost predicate Complete(ws: Stack, jobs: seq<Job>) {
    Jobs(ws, jobs) && forall i: nat, bar: bool :: i < |ws| ==> Job(i, bar) in jobs
  }

  ghost predicate BackToFront(jobs: seq<Job>) { forall a, b :: 0 <= a < b < |jobs| ==> jobs[a].win <= jobs[b].win }

  function Part(ws: Stack, job: Job): (s: Surface)
    requires job.win < |ws|
    ensures s.Sized()
  {
    if job.bar then ws[job.win].Bar() else ws[job.win].Body()
  }

  /** A pass clips against the windows above; painting does not. */
  function Occluders(ws: Stack, job: Job, clipped: bool): seq<Rect>
    requires job.win < |ws|
  {
    if clipped then Above(ws, job.win) else []
  }

  /** `frames[k]` is the back buffer after `k` of the jobs. */
  ghost predicate Drawn(frames: seq<seq<Colour>>, w: U32, h: U32, ws: Stack, jobs: seq<Job>, clip: Rect, clipped: bool) {
    && Jobs(ws, jobs) && |frames| == |jobs| + 1 && FrameSized(frames[0], w, h)
    && forall k :: 0 <= k < |jobs| ==> Drew(frames[k], frames[k + 1], |frames[0]|, w, h, ws, jobs[k], clip, clipped)
  }

  ghost predicate Drew(before: seq<Colour>, after: seq<Colour>, size: nat, w: U32, h: U32,
                       ws: Stack, job: Job, clip: Rect, clipped: bool)
    requires job.win < |ws|
  {
    && FrameSized(before, w, h) && |before| == size
    && Blitted(before, after, w, h, Part(ws, job), clip, Occluders(ws, job, clipped))
  }

  /** No blit of the pass needs more than 32 fragments. */
  ghost predicate PassFits(ws: Stack, jobs: seq<Job>, clip: Rect)
    requires Jobs(ws, jobs)
  {
    forall k :: 0 <= k < |jobs| ==> Fits32(Part(ws, jobs[k]), clip, Above(ws, jobs[k].win))
  }

  /** What the screen should show: inside clip and screen the topmost window. */
  function Ideal(before: seq<Colour>, w: U32, h: U32, ws: Stack, clip: Rect, p: Pixel): Colour
    requires FrameSized(before, w, h) && Grid(w, h, p)
  {
    var top := Top(ws, |ws|, p);
    if Covers(clip, p) && Covers(Screen(w, h), p) && top.Some? then WindowColour(ws[top.value], p) else At(before, w, h, p)
  }

  /** Where a part is the topmost thing. */
  predicate OnTop(ws: Stack, job: Job, w: U32, h: U32, clip: Rect, p: Pixel)
    requires job.win < |ws|
  {
    && Covers(clip, p) && Covers(Screen(w, h), p) && Covers(Part(ws, job).rect, p)
    && Top(ws, |ws|, p) == Some(job.win)
  }

  lemma PartShown(ws: Stack, job: Job, w: U32, h: U32, clip: Rect, p: Pixel)
    requires job.win < |ws| && Fits32(Part(ws, job), clip, Above(ws, job.win))
    ensures Shown(Part(ws, job), clip, Above(ws, job.win), w, h, p) <==> OnTop(ws, job, w, h, clip, p)
    ensures OnTop(ws, job, w, h, clip, p) ==> Source(Part(ws, job), p) == WindowColour(ws[job.win], p)
  {
    hide Shown, Above, Top, Source;
    BlitArea(Part(ws, job), clip, Above(ws, job.win), w, h, p);
    UncoveredIsTop(ws, job.win, p);
    BarAndBody(ws[job.win], p);
  }

  lemma {:induction false} PassAt(frames: seq<seq<Colour>>, w: U32, h: U32, ws: Stack, jobs: seq<Job>, clip: Rect,
                                  k: nat, p: Pixel)
    requires Drawn(frames, w, h, ws, jobs, clip, true) && PassFits(ws, jobs, clip) && k <= |jobs| && Grid(w, h, p)
    ensures FrameSized(frames[k], w, h) && |frames[k]| == |frames[0]|
    ensures var drawn := exists m :: 0 <= m < k && OnTop(ws, jobs[m], w, h, clip, p);
            At(frames[k], w, h, p) == if drawn then Ideal(frames[0], w, h, ws, clip, p) else At(frames[0], w, h, p)
  {
    hide Shown, Above, Top, Source, At, Covers, Part;
    if k > 0 {
      PassAt(frames, w, h, ws, jobs, clip, k - 1, p);
      var job := jobs[k - 1];
      assert Drew(frames[k - 1], frames[k], |frames[0]|, w, h, ws, job, clip, true);
      assert At(frames[k], w, h, p) == BlitAt(frames[k - 1], w, h, Part(ws, job), clip, Above(ws, job.win), p);
      PartShown(ws, job, w, h, clip, p);
    }
  }

  /** A pass that draws every part, in any order and any number of times, shows the
      topmost window everywhere inside clip and screen and changes nothing else. */
  lemma AnyOrderIsIdeal(frames: seq<seq<Colour>>, w: U32, h: U32, ws: Stack, jobs: seq<Job>, clip: Rect, p: Pixel)
    requires Drawn(frames, w, h, ws, jobs, clip, true) && PassFits(ws, jobs, clip) && Complete(ws, jobs) && Grid(w, h, p)
    ensures FrameSized(frames[|jobs|], w, h)
    ensures At(frames[|jobs|], w, h, p) == Ideal(frames[0], w, h, ws, clip, p)
  {
    PassAt(frames, w, h, ws, jobs, clip, |jobs|, p);
    hide Above, Source, At, Drawn, PassFits, Covers;
    var top := Top(ws, |ws|, p);
    if top.Some? {
      BarAndBody(ws[top.value], p);
      var job := Job(top.value, Covers(ws[top.value].Bar().rect, p));
      assert job in jobs;
      var m :| 0 <= m < |jobs| && jobs[m] == job;
      assert Covers(Part(ws, jobs[m]).rect, p);
    }
  }

  // ----- Painting back to front -------------------------------------------

  ghost predicate PaintsOver(ws: Stack, job: Job, w: U32, h: U32, clip: Rect, p: Pixel)
    requires job.win < |ws|
  {
    Covers(clip, p) && Covers(Screen(w, h), p) && Covers(Part(ws, job).rect, p)
  }

  lemma PaintedShown(s: Surface, clip: Rect, w: U32, h: U32, p: Pixel)
    ensures Shown(s, clip, [], w, h, p) <==> Covers(clip, p) && Covers(Screen(w, h), p) && Covers(s.rect, p)
  {
    BlitArea(s, clip, [], w, h, p);
  }

  /** The last part painted over a pixel is the one that shows. */
  lemma {:induction false} PaintAt(frames: seq<seq<Colour>>, w: U32, h: U32, ws: Stack, jobs: seq<Job>, clip: Rect,
                                   k: nat, p: Pixel) returns (last: int)
    requires Drawn(frames, w, h, ws, jobs, clip, false) && k <= |jobs| && Grid(w, h, p)
    ensures FrameSized(frames[k], w, h) && |frames[k]| == |frames[0]| && -1 <= last < k
    ensures forall m :: last < m < k ==> !PaintsOver(ws, jobs[m], w, h, clip, p)
    ensures last >= 0 ==> PaintsOver(ws, jobs[last], w, h, clip, p)
                          && At(frames[k], w, h, p) == Source(Part(ws, jobs[last]), p)
    ensures last < 0 ==> At(frames[k], w, h, p) == At(frames[0], w, h, p)
  {
    hide Shown, Above, Top, Source, At, Covers, Part;
    if k == 0 {
      last := -1;
    } else {
      last := PaintAt(frames, w, h, ws, jobs, clip, k - 1, p);
      var job := jobs[k - 1];
      assert Drew(frames[k - 1], frames[k], |frames[0]|, w, h, ws, job, clip, false);
      assert At(frames[k], w, h, p) == BlitAt(frames[k - 1], w, h, Part(ws, job), clip, [], p);
      PaintedShown(Part(ws, job), clip, w, h, p);
      if PaintsOver(ws, job, w, h, clip, p) { last := k - 1; }
    }
  }

  /** Painting whole windows from back to front shows the topmost window everywhere. */
  lemma PaintingIsIdeal(frames: seq<seq<Colour>>, w: U32, h: U32, ws: Stack, jobs: seq<Job>, clip: Rect, p: Pixel)
    requires Drawn(frames, w, h, ws, jobs, clip, false) && Complete(ws, jobs) && BackToFront(jobs) && Grid(w, h, p)
    ensures FrameSized(frames[|jobs|], w, h)
    ensures At(frames[|jobs|], w, h, p) == Ideal(frames[0], w, h, ws, clip, p)
  {
    var last := PaintAt(frames, w, h, ws, jobs, clip, |jobs|, p);
    hide Above, Source, At, Drawn, Covers;
    var top := Top(ws, |ws|, p);
    if top.Some? {
      BarAndBody(ws[top.value], p);
      var job := Job(top.value, Covers(ws[top.value].Bar().rect, p));
      assert job in jobs;
      var m :| 0 <= m < |jobs| && jobs[m] == job;
      assert Covers(Part(ws, jobs[m]).rect, p);
    }
    if last >= 0 {
      BarAndBody(ws[jobs[last].win], p);
      assert Covers(ws[jobs[last].win].Bounds(), p);
    }
  }

  lemma GridOf(w: U32, h: U32, i: nat) returns (p: Pixel)
    requires i < h * w
    ensures Grid(w, h, p) && Index(w, p.x, p.y) == i
  {
    var y := i / w;
    p := Pixel(i % w, y);
    if h <= y { Scaled(h, y, w); assert false; }
  }

  lemma Scaled(a: int, b: int, w: U32)
    requires a <= b
    ensures a * w <= b * w
  {
  }

  lemma {:induction false} TailKept(frames: seq<seq<Colour>>, w: U32, h: U32, ws: Stack, jobs: seq<Job>, clip: Rect,
                                    clipped: bool, k: nat)
    requires Drawn(frames, w, h, ws, jobs, clip, clipped) && k <= |jobs|
    ensures SameFrom(frames[k], frames[0], h * w)
  {
    hide At, BlitAt, Grid, Part, Occluders;
    if k > 0 {
      TailKept(frames, w, h, ws, jobs, clip, clipped, k - 1);
      assert Drew(frames[k - 1], frames[k], |frames[0]|, w, h, ws, jobs[k - 1], clip, clipped);
    }
  }

  /** Drawing every part of every window once or more, in any order, each clipped
      against the windows above it, leaves the same back buffer as painting all windows
      from back to front, provided no blit needs more than 32 fragments. */
  lemma CompositionIsPainting(frames: seq<seq<Colour>>, painted: seq<seq<Colour>>, w: U32, h: U32, ws: Stack,
                              jobs: seq<Job>, strokes: seq<Job>, clip: Rect)
    requires Drawn(frames, w, h, ws, jobs, clip, true) && Complete(ws, jobs) && PassFits(ws, jobs, clip)
    requires Drawn(painted, w, h, ws, strokes, clip, false) && Complete(ws, strokes) && BackToFront(strokes)
    requires frames[0] == painted[0]
    ensures frames[|jobs|] == painted[|strokes|]
  {
    var a, b := frames[|jobs|], painted[|strokes|];
    TailKept(frames, w, h, ws, jobs, clip, true, |jobs|);
    TailKept(painted, w, h, ws, strokes, clip, false, |strokes|);
    hide Ideal, Drawn, Complete, PassFits, BackToFront;
    forall i | 0 <= i < |a| ensures a[i] == b[i] {
      if i < h * w {
        var p := GridOf(w, h, i);
        AnyOrderIsIdeal(frames, w, h, ws, jobs, clip, p);
        PaintingIsIdeal(painted, w, h, ws, strokes, clip, p);
        assert a[i] == At(a, w, h, p) && b[i] == At(b, w, h, p);
      }
    }
  }

  // ----- The composing loop -----------------------------------------------

  /** The order `present` uses: back to front, the bar of a window before its body. */
  function PresentOrder(n: nat): (jobs: seq<Job>)
    ensures forall k :: 0 <= k < |jobs| ==> jobs[k].win < n
  {
    if n == 0 then [] else PresentOrder(n - 1) + [Job(n - 1, true), Job(n - 1, false)]
  }

  lemma {:induction false} PresentDraws(n: nat, job: Job)
    requires job.win < n
    ensures job in PresentOrder(n)
  {
    var before := PresentOrder(n - 1);
    if job.win < n - 1 {
      PresentDraws(n - 1, job);
    } else {
      assert job == PresentOrder(n)[if job.bar then |before| else |before| + 1];
    }
  }

  lemma StillBackToFront(jobs: seq<Job>, n: nat)
    requires BackToFront(jobs) && forall k :: 0 <= k < |jobs| ==> jobs[k].win < n
    ensures BackToFront(jobs + [Job(n, true), Job(n, false)])
  {
  }

  lemma {:induction false} PresentIsSorted(n: nat)
    ensures BackToFront(PresentOrder(n))
  {
    if n > 0 {
      PresentIsSorted(n - 1);
      StillBackToFront(PresentOrder(n - 1), n - 1);
      hide BackToFront;
    }
  }

  lemma PresentIsComplete(n: nat)
    ensures forall i: nat, bar: bool :: i < n ==> Job(i, bar) in PresentOrder(n)
    ensures BackToFront(PresentOrder(n))
  {
    hide PresentOrder, BackToFront;
    forall i: nat, bar: bool | i < n ensures Job(i, bar) in PresentOrder(n) { PresentDraws(n, Job(i, bar)); }
    PresentIsSorted(n);
  }

  /** Drawing one more part. */
  lemma DrawnStep(frames: seq<seq<Colour>>, after: seq<Colour>, w: U32, h: U32, ws: Stack, jobs: seq<Job>, clip: Rect,
                  job: Job)
    requires Drawn(frames, w, h, ws, jobs, clip, true) && job.win < |ws|
    requires Drew(frames[|jobs|], after, |frames[0]|, w, h, ws, job, clip, true)
    ensures Drawn(frames + [after], w, h, ws, jobs + [job], clip, true)
  {
    hide Drew;
  }

  /** There is room for 16 bounding boxes. */
  const BOXES: nat := 16

  function Boxed(ws: Stack): (r: Stack)
    ensures |r| <= BOXES && (|ws| <= BOXES ==> r == ws)
  {
    if |ws| <= BOXES then ws else ws[..BOXES]
  }

  /** The bounding boxes of the first 16 windows. */
  method CollectBounds(ws: Stack) returns (winBounds: array<Rect>)
    ensures fresh(winBounds) && winBounds.Length == BOXES && winBounds[..|Boxed(ws)|] == AllBounds(Boxed(ws))
  {
    winBounds := new Rect[16](_ => Rect(0, 0, 0, 0));
    ghost var first := Boxed(ws);
    for i := 0 to if |ws| < 16 then |ws| else 16
      invariant forall k :: 0 <= k < i ==> winBounds[k] == first[k].Bounds()
    {
      winBounds[i] := ws[i].Bounds();
    }
  }

  /** The frame shows the topmost window everywhere inside clip and screen. */
  ghost predicate ShowsIdeal(before: seq<Colour>, after: seq<Colour>, w: U32, h: U32, ws: Stack, clip: Rect) {
    && FrameSized(before, w, h) && FrameSized(after, w, h)
    && forall p: Pixel :: Grid(w, h, p) ==> At(after, w, h, p) == Ideal(before, w, h, ws, clip, p)
  }

  lemma PresentShowsIdeal(frames: seq<seq<Colour>>, w: U32, h: U32, ws: Stack, clip: Rect)
    requires Drawn(frames, w, h, ws, PresentOrder(|ws|), clip, true) && PassFits(ws, PresentOrder(|ws|), clip)
    ensures ShowsIdeal(frames[0], frames[|PresentOrder(|ws|)|], w, h, ws, clip)
  {
    var jobs := PresentOrder(|ws|);
    PresentIsComplete(|ws|);
    TailKept(frames, w, h, ws, jobs, clip, true, |jobs|);
    forall p: Pixel | Grid(w, h, p)
      ensures FrameSized(frames[|jobs|], w, h) && At(frames[|jobs|], w, h, p) == Ideal(frames[0], w, h, ws, clip, p)
    {
      hide Drawn, PassFits, At, Ideal, PresentOrder;
      AnyOrderIsIdeal(frames, w, h, ws, jobs, clip, p);
    }
  }

  /** The window, its 20 rows of title bar included, is over (`x`, `y`). */
  predicate Over(win: Window, x: nat, y: nat) {
    win.x <= x < win.x + win.width && win.y - 20 <= y < win.y + win.height
  }

  /** Its colour there: from the title bar above `win.y`, from the content below. */
  function ColourAt(win: Window, x: nat, y: nat): Colour
    requires win.Placed() && Over(win, x, y)
  {
    if y < win.y then
      IndexInBounds(win.width, 20, x - win.x, y - win.y + 20);
      win.title[(y - win.y + 20) * win.width + (x - win.x)]
    else
      IndexInBounds(win.width, win.height, x - win.x, y - win.y);
      win.content[(y - win.y) * win.width + (x - win.x)]
  }

  /** The frame shows at (`x`, `y`) the last window over it, and what it did outside all
      windows and outside the clip. */
  ghost predicate ShowsTopmost(before: seq<Colour>, after: seq<Colour>, w: U32, ws: Stack, clip: Rect, x: nat, y: nat) {
    && var i := y * w + x;
    && 0 <= i < |before| == |after|
    && (forall k :: 0 <= k < |ws| && Over(ws[k], x, y) && (forall m :: k < m < |ws| ==> !Over(ws[m], x, y)) && InRect(clip, Pixel(x, y)) ==>
          after[i] == ColourAt(ws[k], x, y))
    && (!InRect(clip, Pixel(x, y)) || (forall k :: 0 <= k < |ws| ==> !Over(ws[k], x, y)) ==> after[i] == before[i])
  }

  lemma OverIsCovered(win: Window, x: nat, y: nat)
    requires win.Placed() && x < 0x7FFF_FFFF && y < 0x7FFF_FFFF
    ensures Over(win, x, y) <==> Covers(win.Bounds(), Pixel(x, y))
    ensures Over(win, x, y) ==> ColourAt(win, x, y) == WindowColour(win, Pixel(x, y))
  {
    var p := Pixel(x, y);
    CoversInNumbers(win.Bounds(), p);
    CoversInNumbers(win.Bar().rect, p);
    CoversInNumbers(win.Body().rect, p);
    assert win.width < 0x8000_0000 by { assert win.Bar().Sized(); }
    BarAndBody(win, p);
  }

  /** The ideal frame, in numbers. */
  lemma IdealInNumbers(before: seq<Colour>, after: seq<Colour>, w: U32, h: U32, ws: Stack, clip: Rect, x: nat, y: nat)
    requires ShowsIdeal(before, after, w, h, ws, clip) && |after| == |before|
    requires x < w < 0x8000_0000 && y < h < 0x8000_0000
    ensures ShowsTopmost(before, after, w, ws, clip, x, y)
  {
    hide WindowColour, ColourAt, Over;
    var p := Pixel(x, y);
    IndexInBounds(w, h, x, y);
    CoversInNumbers(clip, p);
    CoversInNumbers(Screen(w, h), p);
    forall k | 0 <= k < |ws|
      ensures Over(ws[k], x, y) <==> Covers(ws[k].Bounds(), p)
      ensures Over(ws[k], x, y) ==> ColourAt(ws[k], x, y) == WindowColour(ws[k], p)
    {
      OverIsCovered(ws[k], x, y);
    }
    hide Covers, Window.Bounds, InRect;
    assert At(after, w, h, p) == Ideal(before, w, h, ws, clip, p);
  }

  lemma PresentNext(i: nat)
    ensures PresentOrder(i) + [Job(i, true)] + [Job(i, false)] == PresentOrder(i + 1)
  {
  }

  /** `blit_window_clipped`: the bar, then the body. */
  method BlitWindow(bb: array<Colour>, w: U32, h: U32, win: Window, ghost i: nat, clip: Rect, occluders: seq<Rect>,
                    ghost ws: Stack, ghost frames: seq<seq<Colour>>)
    returns (ghost frames': seq<seq<Colour>>)
    requires i < |ws| && ws[i] == win
    requires Drawn(frames, w, h, ws, PresentOrder(i), clip, true) && occluders == Above(ws, i)
    requires frames[|frames| - 1] == bb[..] && |bb[..]| == |frames[0]|
    modifies bb
    ensures Drawn(frames', w, h, ws, PresentOrder(i + 1), clip, true)
    ensures frames'[0] == frames[0] && frames'[|frames'| - 1] == bb[..] && |bb[..]| == |frames[0]|
  {
    PresentNext(i);
    ghost var jobs := PresentOrder(i);
    hide Blitted, Drawn, Above, PresentOrder, Surface.Sized;
    DrawnSizes(frames, w, h, ws, jobs, clip);
    BlitSurfaceClipped(bb, w, h, win.Bar(), clip, occluders);
    DrawnStep(frames, bb[..], w, h, ws, jobs, clip, Job(i, true));
    frames' := frames + [bb[..]];
    BlitSurfaceClipped(bb, w, h, win.Body(), clip, occluders);
    DrawnStep(frames', bb[..], w, h, ws, jobs + [Job(i, true)], clip, Job(i, false));
    DrawnSizes(frames', w, h, ws, jobs + [Job(i, true)], clip);
    frames' := frames' + [bb[..]];
    DrawnSizes(frames', w, h, ws, PresentOrder(i + 1), clip);
  }

  lemma DrawnSizes(frames: seq<seq<Colour>>, w: U32, h: U32, ws: Stack, jobs: seq<Job>, clip: Rect)
    requires Drawn(frames, w, h, ws, jobs, clip, true)
    ensures |frames| == |jobs| + 1 && FrameSized(frames[0], w, h) && Jobs(ws, jobs)
    ensures |frames[|jobs|]| == |frames[0]|
  {
    TailKept(frames, w, h, ws, jobs, clip, true, |jobs|);
  }

  /** The composing half of `present` and of the damage redraw.  The boxes of the windows
      above window `i` are a slice from `i + 1` to at most 16, which does not exist for the
      17th window: the loop is completed exactly for at most 16 windows, and then shows the
      topmost window everywhere; otherwise it stops when it has drawn the first 16 as if
      they were all. */
  method Compose(bb: array<Colour>, w: U32, h: U32, ws: Stack, clip: Rect)
    returns (done: bool, ghost frames: seq<seq<Colour>>)
    requires FrameSized(bb[..], w, h)
    modifies bb
    ensures done <==> |ws| <= 16
    ensures Drawn(frames, w, h, Boxed(ws), PresentOrder(|Boxed(ws)|), clip, true)
    ensures frames[0] == old(bb[..]) && frames[|frames| - 1] == bb[..]
    ensures done && PassFits(ws, PresentOrder(|ws|), clip) ==> ShowsIdeal(old(bb[..]), bb[..], w, h, ws, clip)
    ensures done && PassFits(ws, PresentOrder(|ws|), clip) && w < 0x8000_0000 && h < 0x8000_0000 ==>
              forall x: nat, y: nat :: x < w && y < h ==> ShowsTopmost(old(bb[..]), bb[..], w, ws, clip, x, y)
  {
    hide Drew, PassFits, ShowsIdeal, ShowsTopmost, AllBounds;
    var winBounds := CollectBounds(ws);
    var shown := if |ws| < 16 then |ws| else 16;
    ghost var first := Boxed(ws);
    frames := [bb[..]];
    var i := 0;
    while i < |ws|
      invariant 0 <= i <= |first| && winBounds[..|first|] == AllBounds(first) && |first| == shown
      invariant Drawn(frames, w, h, first, PresentOrder(i), clip, true)
      invariant frames[0] == old(bb[..]) && frames[|frames| - 1] == bb[..] && |bb[..]| == |frames[0]|
    {
      if i + 1 > shown { return false, frames; }
      assert winBounds[i + 1..shown] == Above(first, i);
      frames := BlitWindow(bb, w, h, ws[i], i, clip, winBounds[i + 1..shown], first, frames);
      i := i + 1;
    }
    if PassFits(ws, PresentOrder(|ws|), clip) {
      PresentShowsIdeal(frames, w, h, ws, clip);
      if w < 0x8000_0000 && h < 0x8000_0000 {
        forall x: nat, y: nat | x < w && y < h ensures ShowsTopmost(old(bb[..]), bb[..], w, ws, clip, x, y) {
          IdealInNumbers(old(bb[..]), bb[..], w, h, ws, clip, x, y);
        }
      }
    }
    return true, frames;
  }
}
