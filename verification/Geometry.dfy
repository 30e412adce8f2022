/** Screen rectangles: intersection, subtraction and the visible part of a window
    under the windows above it.

    A rectangle means a set of pixels: `Covers` is read off its left and top edges and
    its saturated right and bottom edges, so the results below hold for every
    rectangle, including ones whose edges do not fit in 32 bits. */
module Geometry {
  import opened Options
  import opened Arith

  const MAX_I32: int := 0x7FFF_FFFF
  const MIN_I32: int := -0x8000_0000

  type I32 = v: int | -0x8000_0000 <= v <= 0x7FFF_FFFF

  type U32 = v: int | 0 <= v < 0x1_0000_0000

  /** The longest list of fragments `compute_visible_rects` keeps. */
  const CAP: nat := 32

  datatype Rect = Rect(x: I32, y: I32, width: U32, height: U32) {
    predicate IsEmpty() { width == 0 || height == 0 }

    function Right(): I32 { SaturatingAdd(x, AsI32(width)) }

    function Bottom(): I32 { SaturatingAdd(y, AsI32(height)) }

    function Area(): nat { MulNonneg(width, height); width * height }

    /** Neither edge is cut off at the largest coordinate. */
    predicate Fits() { x + width <= MAX_I32 && y + height <= MAX_I32 && width <= MAX_I32 && height <= MAX_I32 }
  }

  /** The bits of an unsigned value read as signed. */
  function AsI32(u: U32): I32 { if u <= MAX_I32 then u else u - 0x1_0000_0000 }

  function SaturatingAdd(a: I32, b: I32): I32 {
    if a + b > MAX_I32 then MAX_I32 else if a + b < MIN_I32 then MIN_I32 else a + b
  }

  function Min(a: I32, b: I32): I32 { if a <= b then a else b }

  function Max(a: I32, b: I32): I32 { if a >= b then a else b }

  datatype Pixel = Pixel(x: int, y: int)

  predicate Covers(r: Rect, p: Pixel) { r.x <= p.x < r.Right() && r.y <= p.y < r.Bottom() }

  /** The pixels of the rectangle in plain numbers; sizes of 2^31 and more are negative to
      the code. */
  predicate InRect(r: Rect, p: Pixel) {
    && r.width < 0x8000_0000 && r.height < 0x8000_0000
    && r.x <= p.x < r.x + r.width && r.y <= p.y < r.y + r.height
  }

  /** Below the largest coordinate the cut-off edges make no difference. */
  lemma CoversInNumbers(r: Rect, p: Pixel)
    ensures Covers(r, p) <==> InRect(r, p) && p.x < 0x7FFF_FFFF && p.y < 0x7FFF_FFFF
  {
  }

  // ----- Intersection -----------------------------------------------------

  function Intersect(a: Rect, b: Rect): (r: Option<Rect>)
    ensures forall p: Pixel :: (r.Some? && Covers(r.value, p)) <==> (Covers(a, p) && Covers(b, p))
    ensures r.Some? ==> r.value.Fits() && !r.value.IsEmpty()
  {
    var x0, y0 := Max(a.x, b.x), Max(a.y, b.y);
    var x1, y1 := Min(a.Right(), b.Right()), Min(a.Bottom(), b.Bottom());
    if x1 > x0 && y1 > y0 then Some(Rect(x0, y0, x1 - x0, y1 - y0)) else None
  }

  predicate Contains(a: Rect, b: Rect) {
    b.IsEmpty() || (a.x <= b.x && a.y <= b.y && a.Right() >= b.Right() && a.Bottom() >= b.Bottom())
  }

  // ----- Counting how often a pixel is covered ----------------------------

  function Bit(b: bool): nat { if b then 1 else 0 }

  /** How many rectangles of the list cover `p`. */
  ghost function Times(rs: seq<Rect>, p: Pixel): nat {
    if rs == [] then 0 else Times(rs[..|rs| - 1], p) + Bit(Covers(rs[|rs| - 1], p))
  }

  lemma {:induction false} TimesConcat(a: seq<Rect>, b: seq<Rect>, p: Pixel)
    ensures Times(a + b, p) == Times(a, p) + Times(b, p)
    decreases |b|
  {
    if b == [] {
      assert a + b == a;
    } else {
      assert (a + b)[..|a + b| - 1] == a + b[..|b| - 1];
      TimesConcat(a, b[..|b| - 1], p);
    }
  }

  lemma TimesOne(r: Rect, p: Pixel)
    ensures Times([r], p) == Bit(Covers(r, p))
  {
    assert [r][..0] == [];
  }

  lemma {:induction false} TimesPositive(rs: seq<Rect>, k: nat, p: Pixel)
    requires k < |rs| && Covers(rs[k], p)
    ensures Times(rs, p) > 0
    decreases |rs|
  {
    if k < |rs| - 1 { TimesPositive(rs[..|rs| - 1], k, p); }
  }

  lemma {:induction false} TimesWitness(rs: seq<Rect>, p: Pixel) returns (k: nat)
    requires Times(rs, p) > 0
    ensures k < |rs| && Covers(rs[k], p)
  {
    k := |rs| - 1;
    if !Covers(rs[k], p) { k := TimesWitness(rs[..k], p); }
  }

  lemma {:induction false} TimesTwice(rs: seq<Rect>, i: nat, k: nat, p: Pixel)
    requires i < k < |rs| && Covers(rs[i], p) && Covers(rs[k], p)
    ensures Times(rs, p) >= 2
    decreases |rs|
  {
    if k < |rs| - 1 { TimesTwice(rs[..|rs| - 1], i, k, p); } else { TimesPositive(rs[..|rs| - 1], i, p); }
  }

  // ----- Subtraction ------------------------------------------------------

  function Only(b: bool, r: Rect): seq<Rect> { if b then [r] else [] }

  /** The part of `r` outside `occ`, in at most four slices. */
  function Difference(r: Rect, occ: Rect): seq<Rect> {
    if r.IsEmpty() then [] else
    match Intersect(r, occ)
    case None => [r]
    case Some(inter) =>
      if Contains(occ, r) then [] else Slices(r, inter)
  }

  /** Above, below, left and right of `inter`. */
  function Slices(r: Rect, inter: Rect): seq<Rect>
    requires Inside(r, inter)
  {
    Only(inter.y > r.y, Top(r, inter)) + Only(r.Bottom() > inter.Bottom(), Below(r, inter))
    + Only(inter.x > r.x, Left(r, inter)) + Only(r.Right() > inter.Right(), RightOf(r, inter))
  }

  predicate Inside(r: Rect, inter: Rect) {
    && r.x <= inter.x < inter.Right() <= r.Right() && r.y <= inter.y < inter.Bottom() <= r.Bottom()
    && inter.Fits()
  }

  function Top(r: Rect, inter: Rect): Rect
    requires Inside(r, inter)
  {
    Rect(r.x, r.y, r.width, inter.y - r.y)
  }

  function Below(r: Rect, inter: Rect): Rect
    requires Inside(r, inter)
  {
    Rect(r.x, inter.Bottom(), r.width, r.Bottom() - inter.Bottom())
  }

  function Left(r: Rect, inter: Rect): Rect
    requires Inside(r, inter)
  {
    Rect(r.x, inter.y, inter.x - r.x, inter.height)
  }

  function RightOf(r: Rect, inter: Rect): Rect
    requires Inside(r, inter)
  {
    Rect(inter.Right(), inter.y, r.Right() - inter.Right(), inter.height)
  }

  /** Where each slice lies. */
  lemma SlicesCover(r: Rect, inter: Rect, p: Pixel)
    requires Inside(r, inter)
    ensures (inter.y > r.y && Covers(Top(r, inter), p)) <==> (Covers(r, p) && p.y < inter.y)
    ensures (r.Bottom() > inter.Bottom() && Covers(Below(r, inter), p)) <==> (Covers(r, p) && p.y >= inter.Bottom())
    ensures (inter.x > r.x && Covers(Left(r, inter), p)) <==>
            (Covers(r, p) && inter.y <= p.y < inter.Bottom() && p.x < inter.x)
    ensures (r.Right() > inter.Right() && Covers(RightOf(r, inter), p)) <==>
            (Covers(r, p) && inter.y <= p.y < inter.Bottom() && p.x >= inter.Right())
  {
  }

  lemma TimesOnly(b: bool, r: Rect, p: Pixel)
    ensures Times(Only(b, r), p) == Bit(b && Covers(r, p))
  {
    TimesOne(r, p);
  }

  lemma TimesFour(a: seq<Rect>, b: seq<Rect>, c: seq<Rect>, d: seq<Rect>, p: Pixel)
    ensures Times(a + b + c + d, p) == Times(a, p) + Times(b, p) + Times(c, p) + Times(d, p)
  {
    TimesConcat(a + b + c, d, p);
    TimesConcat(a + b, c, p);
    TimesConcat(a, b, p);
  }

  /** The slices cover each pixel of `r` outside `inter` once and no other pixel. */
  lemma SlicesExact(r: Rect, inter: Rect, p: Pixel)
    requires Inside(r, inter)
    ensures Times(Slices(r, inter), p) == Bit(Covers(r, p) && !Covers(inter, p))
  {
    SlicesCover(r, inter, p);
    hide Times, Only, Top, Below, Left, RightOf;
    var b1, b2 := inter.y > r.y, r.Bottom() > inter.Bottom();
    var b3, b4 := inter.x > r.x, r.Right() > inter.Right();
    TimesOnly(b1, Top(r, inter), p);
    TimesOnly(b2, Below(r, inter), p);
    TimesOnly(b3, Left(r, inter), p);
    TimesOnly(b4, RightOf(r, inter), p);
    TimesFour(Only(b1, Top(r, inter)), Only(b2, Below(r, inter)), Only(b3, Left(r, inter)), Only(b4, RightOf(r, inter)), p);
  }

  /** `subtract`, for every two rectangles: at most four pieces, which together cover
      each pixel of the difference exactly once and nothing else. */
  lemma SubtractExact(r: Rect, occ: Rect, p: Pixel)
    ensures |Difference(r, occ)| <= 4
    ensures Times(Difference(r, occ), p) == Bit(Covers(r, p) && !Covers(occ, p))
  {
    TimesOne(r, p);
    match Intersect(r, occ)
    case None => assert Covers(r, p) && Covers(occ, p) ==> false;
    case Some(inter) =>
      InsideBoth(r, occ);
      SlicesExact(r, inter, p);
  }

  lemma InsideBoth(r: Rect, occ: Rect)
    requires Intersect(r, occ).Some?
    ensures Inside(r, Intersect(r, occ).value)
  {
  }

  // ----- The visible part -------------------------------------------------

  /** Every rectangle of the list less `occ`. */
  function Flat(rs: seq<Rect>, occ: Rect): seq<Rect> {
    if rs == [] then [] else Flat(rs[..|rs| - 1], occ) + Difference(rs[|rs| - 1], occ)
  }

  function Cut(rs: seq<Rect>): seq<Rect> { if |rs| <= CAP then rs else rs[..CAP] }

  /** One occluder's turn: an empty one is skipped, and fragments past the 32nd are
      dropped. */
  function Stage(rs: seq<Rect>, occ: Rect): seq<Rect> {
    if occ.IsEmpty() then rs else Cut(Flat(rs, occ))
  }

  function Stages(rs: seq<Rect>, occs: seq<Rect>): seq<Rect>
    decreases |occs|
  {
    if occs == [] then rs else Stages(Stage(rs, occs[0]), occs[1..])
  }

  /** What `compute_visible_rects` returns. */
  function Visible(target: Rect, occs: seq<Rect>): seq<Rect> {
    if target.IsEmpty() then [] else Stages([target], occs)
  }

  /** No stage drops a fragment. */
  predicate Roomy(rs: seq<Rect>, occs: seq<Rect>)
    decreases |occs|
  {
    occs == [] || ((occs[0].IsEmpty() || |Flat(rs, occs[0])| <= 32) && Roomy(Stage(rs, occs[0]), occs[1..]))
  }

  ghost predicate Hidden(occs: seq<Rect>, p: Pixel) { exists k :: 0 <= k < |occs| && Covers(occs[k], p) }

  lemma HiddenSnoc(rs: seq<Rect>, r: Rect, p: Pixel)
    ensures Hidden(rs + [r], p) <==> Hidden(rs, p) || Covers(r, p)
  {
    hide Covers;
    if Hidden(rs, p) {
      var k :| 0 <= k < |rs| && Covers(rs[k], p);
      assert Covers((rs + [r])[k], p);
    }
    if Covers(r, p) { assert Covers((rs + [r])[|rs|], p); }
  }

  lemma {:induction false} FlatExact(rs: seq<Rect>, occ: Rect, p: Pixel)
    ensures Times(Flat(rs, occ), p) == if Covers(occ, p) then 0 else Times(rs, p)
    decreases |rs|
  {
    if rs != [] {
      hide Difference, Covers;
      var front, r := rs[..|rs| - 1], rs[|rs| - 1];
      FlatExact(front, occ, p);
      SubtractExact(r, occ, p);
      TimesConcat(Flat(front, occ), Difference(r, occ), p);
    }
  }

  lemma TimesCut(rs: seq<Rect>, p: Pixel)
    ensures Times(Cut(rs), p) <= Times(rs, p)
  {
    if |rs| > CAP {
      assert rs == rs[..CAP] + rs[CAP..];
      TimesConcat(rs[..CAP], rs[CAP..], p);
    }
  }

  /** What a stage does to one pixel. */
  lemma StageBound(rs: seq<Rect>, occ: Rect, p: Pixel)
    ensures Times(Stage(rs, occ), p) <= if Covers(occ, p) then 0 else Times(rs, p)
    ensures occ.IsEmpty() || |Flat(rs, occ)| <= CAP ==>
              Times(Stage(rs, occ), p) == if Covers(occ, p) then 0 else Times(rs, p)
  {
    if !occ.IsEmpty() {
      FlatExact(rs, occ, p);
      TimesCut(Flat(rs, occ), p);
    }
  }

  lemma {:induction false} StagesBound(rs: seq<Rect>, occs: seq<Rect>, p: Pixel)
    ensures Times(Stages(rs, occs), p) <= if Hidden(occs, p) then 0 else Times(rs, p)
    ensures Roomy(rs, occs) ==> Times(Stages(rs, occs), p) == if Hidden(occs, p) then 0 else Times(rs, p)
    decreases |occs|
  {
    if occs != [] {
      hide Stage, Flat, Covers, Times;
      var rest := occs[1..];
      StageBound(rs, occs[0], p);
      StagesBound(Stage(rs, occs[0]), rest, p);
      HiddenStep(occs, p);
    }
  }

  lemma HiddenStep(occs: seq<Rect>, p: Pixel)
    requires occs != []
    ensures Hidden(occs, p) <==> Covers(occs[0], p) || Hidden(occs[1..], p)
  {
    if Hidden(occs, p) {
      var k :| 0 <= k < |occs| && Covers(occs[k], p);
      assert k > 0 ==> Covers(occs[1..][k - 1], p);
    }
    if Hidden(occs[1..], p) {
      var k :| 0 <= k < |occs[1..]| && Covers(occs[1..][k], p);
      assert Covers(occs[k + 1], p);
    }
  }

  /** `compute_visible_rects`, for every target and every list of occluders: a pixel is
      covered at most once, and only if it is in the target and under no occluder; if no
      stage drops a fragment, exactly those pixels are covered. */
  lemma VisibleExact(target: Rect, occs: seq<Rect>, p: Pixel)
    ensures Times(Visible(target, occs), p) <= Bit(Covers(target, p) && !Hidden(occs, p))
    ensures Roomy([target], occs) ==> Times(Visible(target, occs), p) == Bit(Covers(target, p) && !Hidden(occs, p))
  {
    if target.IsEmpty() {
      assert !Covers(target, p);
    } else {
      StagesBound([target], occs, p);
      TimesOne(target, p);
    }
  }

  /** The same in terms of the list itself. */
  lemma VisibleFragments(target: Rect, occs: seq<Rect>)
    ensures var vs := Visible(target, occs);
            && (forall i, k, p: Pixel :: 0 <= i < k < |vs| && Covers(vs[i], p) ==> !Covers(vs[k], p))
            && (forall i, p: Pixel :: 0 <= i < |vs| && Covers(vs[i], p) ==> Covers(target, p) && !Hidden(occs, p))
    ensures Roomy([target], occs) ==>
              forall p: Pixel :: Covers(target, p) && !Hidden(occs, p) ==> Hidden(Visible(target, occs), p)
  {
    var vs := Visible(target, occs);
    hide Visible, Times, Covers, Roomy;
    forall i, k, p: Pixel | 0 <= i < k < |vs| && Covers(vs[i], p)
      ensures !Covers(vs[k], p)
    {
      VisibleExact(target, occs, p);
      if Covers(vs[k], p) { TimesTwice(vs, i, k, p); assert false; }
    }
    forall i, p: Pixel | 0 <= i < |vs| && Covers(vs[i], p)
      ensures Covers(target, p) && !Hidden(occs, p)
    {
      VisibleExact(target, occs, p);
      TimesPositive(vs, i, p);
    }
    if Roomy([target], occs) {
      forall p: Pixel | Covers(target, p) && !Hidden(occs, p)
        ensures Hidden(vs, p)
      {
        VisibleExact(target, occs, p);
        var k := TimesWitness(vs, p);
      }
    }
  }

  // ----- Areas ------------------------------------------------------------

  ghost function Box(x0: int, x1: int, y0: int, y1: int): set<Pixel> {
    set x: int, y: int | x0 <= x < x1 && y0 <= y < y1 :: Pixel(x, y)
  }

  lemma InBox(x0: int, x1: int, y0: int, y1: int, p: Pixel)
    ensures p in Box(x0, x1, y0, y1) <==> x0 <= p.x < x1 && y0 <= p.y < y1
  {
    if x0 <= p.x < x1 && y0 <= p.y < y1 { assert p == Pixel(p.x, p.y); }
  }

  lemma {:induction false} RowSize(x0: int, x1: int, y: int)
    requires x0 <= x1
    ensures |Box(x0, x1, y, y + 1)| == x1 - x0
    decreases x1 - x0
  {
    if x0 == x1 {
      assert Box(x0, x1, y, y + 1) == {};
    } else {
      RowSize(x0, x1 - 1, y);
      assert Box(x0, x1, y, y + 1) == Box(x0, x1 - 1, y, y + 1) + {Pixel(x1 - 1, y)};
    }
  }

  lemma {:induction false} BoxSize(x0: int, x1: int, y0: int, y1: int)
    requires x0 <= x1 && y0 <= y1
    ensures |Box(x0, x1, y0, y1)| == (x1 - x0) * (y1 - y0)
    decreases y1 - y0
  {
    if y0 == y1 {
      assert Box(x0, x1, y0, y1) == {};
    } else {
      var up, row := Box(x0, x1, y0, y1 - 1), Box(x0, x1, y1 - 1, y1);
      BoxSize(x0, x1, y0, y1 - 1);
      RowSize(x0, x1, y1 - 1);
      forall p ensures p in Box(x0, x1, y0, y1) <==> p in up + row {
        InBox(x0, x1, y0, y1, p);
        InBox(x0, x1, y0, y1 - 1, p);
        InBox(x0, x1, y1 - 1, y1, p);
      }
      assert Box(x0, x1, y0, y1) == up + row;
      assert up !! row;
      assert (x1 - x0) * (y1 - 1 - y0) + (x1 - x0) == (x1 - x0) * (y1 - y0);
    }
  }

  ghost function Pixels(r: Rect): set<Pixel> { Box(r.x, r.Right(), r.y, r.Bottom()) }

  lemma PixelsAre(r: Rect, p: Pixel)
    ensures p in Pixels(r) <==> Covers(r, p)
  {
    InBox(r.x, r.Right(), r.y, r.Bottom(), p);
  }

  /** The area is the number of pixels, unless an edge was cut off. */
  lemma AreaCounts(r: Rect)
    requires r.Fits()
    ensures |Pixels(r)| == r.Area()
  {
    BoxSize(r.x, r.Right(), r.y, r.Bottom());
  }

  ghost function AllPixels(rs: seq<Rect>): set<Pixel> {
    if rs == [] then {} else AllPixels(rs[..|rs| - 1]) + Pixels(rs[|rs| - 1])
  }

  function AreaSum(rs: seq<Rect>): nat {
    if rs == [] then 0 else AreaSum(rs[..|rs| - 1]) + rs[|rs| - 1].Area()
  }

  predicate AllFit(rs: seq<Rect>) { forall k :: 0 <= k < |rs| ==> rs[k].Fits() }

  lemma {:induction false} AllPixelsAre(rs: seq<Rect>, p: Pixel)
    ensures p in AllPixels(rs) <==> Times(rs, p) > 0
  {
    if rs != [] {
      AllPixelsAre(rs[..|rs| - 1], p);
      PixelsAre(rs[|rs| - 1], p);
    }
  }

  /** Areas of rectangles that share no pixel add up to the number of pixels. */
  lemma {:induction false} AreasAdd(rs: seq<Rect>)
    requires AllFit(rs) && forall p: Pixel :: Times(rs, p) <= 1
    ensures AreaSum(rs) == |AllPixels(rs)|
    decreases |rs|
  {
    if rs != [] {
      hide Pixels, Covers;
      var front, r := rs[..|rs| - 1], rs[|rs| - 1];
      forall p: Pixel ensures Times(front, p) <= 1 && !(p in AllPixels(front) && p in Pixels(r)) {
        assert Times(rs, p) == Times(front, p) + Bit(Covers(r, p));
        AllPixelsAre(front, p);
        PixelsAre(r, p);
      }
      AreasAdd(front);
      AreaCounts(r);
      assert AllPixels(front) !! Pixels(r);
    }
  }

  lemma SlicesFit(r: Rect, inter: Rect)
    requires r.Fits() && Inside(r, inter)
    ensures AllFit(Slices(r, inter))
  {
    assert inter.y > r.y ==> Top(r, inter).Fits();
    assert r.Bottom() > inter.Bottom() ==> Below(r, inter).Fits();
    assert inter.x > r.x ==> Left(r, inter).Fits();
    assert r.Right() > inter.Right() ==> RightOf(r, inter).Fits();
    hide Top, Below, Left, RightOf, Rect.Fits;
  }

  lemma DifferenceFits(r: Rect, occ: Rect)
    requires r.Fits()
    ensures AllFit(Difference(r, occ))
  {
    hide Slices, Inside;
    match Intersect(r, occ)
    case None =>
    case Some(inter) =>
      InsideBoth(r, occ);
      SlicesFit(r, inter);
  }

  lemma {:induction false} FlatFits(rs: seq<Rect>, occ: Rect)
    requires AllFit(rs)
    ensures AllFit(Flat(rs, occ))
    decreases |rs|
  {
    if rs != [] {
      hide Difference;
      FlatFits(rs[..|rs| - 1], occ);
      DifferenceFits(rs[|rs| - 1], occ);
    }
  }

  lemma {:induction false} StagesFit(rs: seq<Rect>, occs: seq<Rect>)
    requires AllFit(rs)
    ensures AllFit(Stages(rs, occs))
    decreases |occs|
  {
    if occs != [] {
      FlatFits(rs, occs[0]);
      StagesFit(Stage(rs, occs[0]), occs[1..]);
    }
  }

  ghost function Uncovered(target: Rect, occs: seq<Rect>): set<Pixel> {
    set p | p in Pixels(target) && !Hidden(occs, p)
  }

  /** The areas of the fragments add up to the number of uncovered pixels, or to less
      where a stage drops fragments. */
  lemma VisibleAreas(target: Rect, occs: seq<Rect>)
    requires target.Fits()
    ensures AreaSum(Visible(target, occs)) <= |Uncovered(target, occs)|
    ensures Roomy([target], occs) ==> AreaSum(Visible(target, occs)) == |Uncovered(target, occs)|
  {
    var vs, left := Visible(target, occs), Uncovered(target, occs);
    assert AllFit(vs) by { if !target.IsEmpty() { StagesFit([target], occs); } }
    hide Visible, Covers, Times, AllPixels, Pixels, AreaSum, Roomy, Hidden;
    forall p: Pixel
      ensures Times(vs, p) <= 1 && (p in AllPixels(vs) ==> p in left)
      ensures Roomy([target], occs) && p in left ==> p in AllPixels(vs)
    {
      VisibleExact(target, occs, p);
      AllPixelsAre(vs, p);
      PixelsAre(target, p);
    }
    AreasAdd(vs);
    SubsetSize(AllPixels(vs), left);
    if Roomy([target], occs) { assert AllPixels(vs) == left; }
  }

  lemma SubsetSize<T>(a: set<T>, b: set<T>)
    requires a <= b
    ensures |a| <= |b|
  {
    assert b == a + (b - a);
  }

  // ----- When a stage keeps every fragment --------------------------------

  ghost predicate HasPixel(r: Rect) { Covers(r, Pixel(r.x, r.y)) }

  ghost predicate Solid(rs: seq<Rect>) { forall k :: 0 <= k < |rs| ==> HasPixel(rs[k]) }

  lemma SlicesSolid(r: Rect, inter: Rect)
    requires Inside(r, inter)
    ensures Solid(Slices(r, inter))
  {
    assert inter.y > r.y ==> HasPixel(Top(r, inter));
    assert r.Bottom() > inter.Bottom() ==> HasPixel(Below(r, inter));
    assert inter.x > r.x ==> HasPixel(Left(r, inter));
    assert r.Right() > inter.Right() ==> HasPixel(RightOf(r, inter));
    hide HasPixel, Top, Below, Left, RightOf;
  }

  lemma DifferenceSolid(r: Rect, occ: Rect)
    requires HasPixel(r)
    ensures Solid(Difference(r, occ))
  {
    hide HasPixel, Slices, Inside;
    match Intersect(r, occ)
    case None =>
    case Some(inter) =>
      InsideBoth(r, occ);
      SlicesSolid(r, inter);
  }

  lemma {:induction false} FlatSolid(rs: seq<Rect>, occ: Rect)
    requires Solid(rs)
    ensures Solid(Flat(rs, occ))
    decreases |rs|
  {
    if rs != [] {
      hide Difference, HasPixel;
      var front, r := rs[..|rs| - 1], rs[|rs| - 1];
      FlatSolid(front, occ);
      DifferenceSolid(r, occ);
    }
  }

  lemma {:induction false} StagesSolid(rs: seq<Rect>, occs: seq<Rect>)
    requires Solid(rs)
    ensures Solid(Stages(rs, occs))
    decreases |occs|
  {
    if occs != [] {
      hide HasPixel, Flat;
      FlatSolid(rs, occs[0]);
      StagesSolid(Stage(rs, occs[0]), occs[1..]);
    }
  }

  /** A stage shows exactly what it should if and only if it makes at most 32 fragments. */
  lemma StageExactIffRoomy(rs: seq<Rect>, occ: Rect)
    requires Solid(rs) && !occ.IsEmpty()
    ensures |Flat(rs, occ)| <= 32 <==>
            forall p: Pixel :: Times(Stage(rs, occ), p) == if Covers(occ, p) then 0 else Times(rs, p)
  {
    hide Covers, Times, Flat;
    var all := Flat(rs, occ);
    if |all| <= CAP {
      forall p: Pixel ensures Times(Stage(rs, occ), p) == if Covers(occ, p) then 0 else Times(rs, p) {
        StageBound(rs, occ, p);
      }
    } else {
      FlatSolid(rs, occ);
      var p := Pixel(all[CAP].x, all[CAP].y);
      assert HasPixel(all[CAP]);
      assert Covers(all[CAP..][0], p);
      TimesPositive(all[CAP..], 0, p);
      assert all == all[..CAP] + all[CAP..];
      TimesConcat(all[..CAP], all[CAP..], p);
      FlatExact(rs, occ, p);
    }
  }

  /** A stage drops a fragment with pixel `p` in it. */
  ghost predicate Drops(rs: seq<Rect>, occs: seq<Rect>, p: Pixel)
    decreases |occs|
  {
    && occs != []
    && ((!occs[0].IsEmpty() && |Flat(rs, occs[0])| > CAP && Times(Flat(rs, occs[0])[CAP..], p) > 0)
        || Drops(Stage(rs, occs[0]), occs[1..], p))
  }

  /** What one stage leaves of a pixel that is not under its occluder. */
  lemma StageLeaves(rs: seq<Rect>, occ: Rect, p: Pixel)
    requires !Covers(occ, p)
    ensures occ.IsEmpty() || |Flat(rs, occ)| <= CAP ==> Times(Stage(rs, occ), p) == Times(rs, p)
    ensures !occ.IsEmpty() && |Flat(rs, occ)| > CAP ==>
              Times(Stage(rs, occ), p) + Times(Flat(rs, occ)[CAP..], p) == Times(rs, p)
  {
    hide Flat, Covers;
    FlatExact(rs, occ, p);
    var all := Flat(rs, occ);
    if |all| > CAP {
      assert all == all[..CAP] + all[CAP..];
      TimesConcat(all[..CAP], all[CAP..], p);
    }
  }

  lemma {:induction false} StagesExactIff(rs: seq<Rect>, occs: seq<Rect>, p: Pixel)
    requires Times(rs, p) <= 1 && !Hidden(occs, p)
    ensures Times(Stages(rs, occs), p) == Times(rs, p) <==> !Drops(rs, occs, p)
    decreases |occs|
  {
    if occs != [] {
      hide Stage, Flat, Covers, Times;
      HiddenStep(occs, p);
      StageLeaves(rs, occs[0], p);
      StagesBound(Stage(rs, occs[0]), occs[1..], p);
      StagesExactIff(Stage(rs, occs[0]), occs[1..], p);
    }
  }

  /** `compute_visible_rects` covers exactly the visible pixels if and only if no fragment
      it drops has a pixel that is under no occluder. */
  lemma VisibleExactIff(target: Rect, occs: seq<Rect>)
    requires !target.IsEmpty()
    ensures (forall p: Pixel :: Times(Visible(target, occs), p) == Bit(Covers(target, p) && !Hidden(occs, p))) <==>
            (forall p: Pixel :: Covers(target, p) && !Hidden(occs, p) ==> !Drops([target], occs, p))
  {
    hide Stages, Covers, Hidden, Times, Drops;
    forall p: Pixel
      ensures Times(Visible(target, occs), p) == Bit(Covers(target, p) && !Hidden(occs, p)) <==>
              (Covers(target, p) && !Hidden(occs, p) ==> !Drops([target], occs, p))
    {
      VisibleExact(target, occs, p);
      TimesOne(target, p);
      if Covers(target, p) && !Hidden(occs, p) { StagesExactIff([target], occs, p); }
    }
  }

  // ----- More than 32 fragments -------------------------------------------

  /** A column three pixels wide, and single pixels down its middle. */
  const Column: Rect := Rect(0, 0, 3, 100)

  function Spot(i: nat): Rect
    requires i < 49
  {
    Rect(1, 2 * i + 1, 1, 1)
  }

  function Spots(n: nat): seq<Rect>
    requires n <= 49
  {
    if n == 0 then [] else Spots(n - 1) + [Spot(n - 1)]
  }

  function Row(i: nat): Rect
    requires i < 49
  {
    Rect(0, 2 * i, 3, 1)
  }

  function Rows(n: nat): seq<Rect>
    requires n <= 49
  {
    if n == 0 then [] else Rows(n - 1) + [Row(n - 1)]
  }

  function Foot(n: nat): Rect
    requires n <= 49
  {
    Rect(0, 2 * n, 3, 100 - 2 * n)
  }

  function Pair(i: nat): seq<Rect>
    requires i < 49
  {
    [Rect(0, 2 * i + 1, 1, 1), Rect(2, 2 * i + 1, 1, 1)]
  }

  function Pairs(n: nat): seq<Rect>
    requires n <= 49
  {
    if n == 0 then [] else Pair(n - 1) + Pairs(n - 1)
  }

  /** What is left of the column after `n` spots: the rows between them, the foot, and the
      pixels beside them. */
  function Pieces(n: nat): seq<Rect>
    requires n <= 49
  {
    Rows(n) + [Foot(n)] + Pairs(n)
  }

  lemma {:induction false} FlatConcat(a: seq<Rect>, b: seq<Rect>, occ: Rect)
    ensures Flat(a + b, occ) == Flat(a, occ) + Flat(b, occ)
    decreases |b|
  {
    hide Difference;
    if b == [] {
      assert a + b == a;
    } else {
      assert (a + b)[..|a + b| - 1] == a + b[..|b| - 1];
      FlatConcat(a, b[..|b| - 1], occ);
    }
  }

  lemma FlatNone(occ: Rect)
    ensures Flat([], occ) == []
  {
  }

  lemma FlatOne(r: Rect, occ: Rect)
    ensures Flat([r], occ) == Difference(r, occ)
  {
    hide Difference;
    assert [r][..0] == [];
  }

  lemma FootSplits(n: nat)
    requires n < 49
    ensures Difference(Foot(n), Spot(n)) == [Row(n), Foot(n + 1)] + Pair(n)
  {
    hide Slices, Intersect;
    SpotInFoot(n);
    FootSlices(n);
  }

  lemma SpotInFoot(n: nat)
    requires n < 49
    ensures Intersect(Foot(n), Spot(n)) == Some(Spot(n)) && Inside(Foot(n), Spot(n))
  {
  }

  lemma FootSlices(n: nat)
    requires n < 49
    ensures Inside(Foot(n), Spot(n)) && Slices(Foot(n), Spot(n)) == [Row(n), Foot(n + 1)] + Pair(n)
  {
    var r, occ := Foot(n), Spot(n);
    assert Top(r, occ) == Row(n) && Below(r, occ) == Foot(n + 1);
    assert [Left(r, occ), RightOf(r, occ)] == Pair(n);
  }

  lemma {:induction false} RowsMissed(k: nat, n: nat)
    requires k <= n < 49
    ensures Flat(Rows(k), Spot(n)) == Rows(k)
  {
    hide Row, Spot, Difference, Flat;
    if k == 0 {
      FlatNone(Spot(n));
    } else {
      RowsMissed(k - 1, n);
      RowMissed(k - 1, n);
      FlatOne(Row(k - 1), Spot(n));
      FlatConcat(Rows(k - 1), [Row(k - 1)], Spot(n));
    }
  }

  lemma RowMissed(k: nat, n: nat)
    requires k <= n < 49
    ensures Difference(Row(k), Spot(n)) == [Row(k)]
  {
  }

  lemma PairMissed(k: nat, n: nat)
    requires k < n < 49
    ensures Flat(Pair(k), Spot(n)) == Pair(k)
  {
    var l, r := Pair(k)[0], Pair(k)[1];
    assert Difference(l, Spot(n)) == [l] && Difference(r, Spot(n)) == [r];
    assert Pair(k) == [l] + [r];
    FlatConcat([l], [r], Spot(n));
    FlatOne(l, Spot(n));
    FlatOne(r, Spot(n));
  }

  lemma {:induction false} PairsMissed(k: nat, n: nat)
    requires k <= n < 49
    ensures Flat(Pairs(k), Spot(n)) == Pairs(k)
  {
    hide Pair, Spot, Flat;
    if k == 0 {
      FlatNone(Spot(n));
    } else {
      PairsMissed(k - 1, n);
      PairMissed(k - 1, n);
      FlatConcat(Pair(k - 1), Pairs(k - 1), Spot(n));
    }
  }

  /** Each spot splits the foot and leaves everything else alone: three pieces more. */
  lemma PiecesStep(n: nat)
    requires n < 49
    ensures Flat(Pieces(n), Spot(n)) == Pieces(n + 1)
  {
    hide Flat, Row, Foot, Pair, Spot, Difference;
    RowsMissed(n, n);
    PairsMissed(n, n);
    FootSplits(n);
    FlatOne(Foot(n), Spot(n));
    FlatConcat(Rows(n) + [Foot(n)], Pairs(n), Spot(n));
    FlatConcat(Rows(n), [Foot(n)], Spot(n));
    assert Rows(n) + ([Row(n), Foot(n + 1)] + Pair(n)) + Pairs(n) == Rows(n + 1) + [Foot(n + 1)] + (Pair(n) + Pairs(n));
  }

  lemma {:induction false} PiecesCount(n: nat)
    requires n <= 49
    ensures |Rows(n)| == n && |Pairs(n)| == 2 * n && |Pieces(n)| == 3 * n + 1
  {
    if n > 0 { PiecesCount(n - 1); }
  }

  lemma {:induction false} StagesSnoc(rs: seq<Rect>, occs: seq<Rect>, occ: Rect)
    ensures Stages(rs, occs + [occ]) == Stage(Stages(rs, occs), occ)
    ensures Roomy(rs, occs + [occ]) <==>
            Roomy(rs, occs) && (occ.IsEmpty() || |Flat(Stages(rs, occs), occ)| <= CAP)
    decreases |occs|
  {
    hide Stage, Flat;
    var all := occs + [occ];
    if occs == [] {
      assert all[0] == occ && all[1..] == [];
    } else {
      assert all[0] == occs[0] && all[1..] == occs[1..] + [occ];
      StagesSnoc(Stage(rs, occs[0]), occs[1..], occ);
    }
  }

  lemma NoSpots()
    ensures Spots(0) == [] && Pieces(0) == [Column] && Stages([Column], []) == [Column] && Roomy([Column], [])
  {
  }

  lemma {:induction false} TenSpots(n: nat)
    requires n <= 10
    ensures Stages([Column], Spots(n)) == Pieces(n) && Roomy([Column], Spots(n))
  {
    hide Stages, Flat, Pieces, Roomy, Spots, Spot;
    if n == 0 {
      NoSpots();
    } else {
      TenSpots(n - 1);
      SpotsNext(n - 1);
      StagesSnoc([Column], Spots(n - 1), Spot(n - 1));
      PiecesStep(n - 1);
      PiecesCount(n);
    }
  }

  lemma BesideFirst()
    ensures Covers(Column, Pixel(0, 1)) && Covers(Pair(0)[0], Pixel(0, 1))
  {
  }

  lemma SpotsNext(n: nat)
    requires n < 49
    ensures Spots(n + 1) == Spots(n) + [Spot(n)] && !Spot(n).IsEmpty()
  {
  }

  lemma AtMostOnceLeft(n: nat, p: Pixel)
    requires n <= 10
    ensures Times(Pieces(n + 1), p) <= 1
  {
    hide Flat, Pieces, Times, Stages, Roomy, Spots, Spot, Hidden, Covers;
    TenSpots(n);
    PiecesStep(n);
    StagesBound([Column], Spots(n), p);
    TimesOne(Column, p);
    FlatExact(Pieces(n), Spot(n), p);
  }

  lemma CutLosesBeside(n: nat)
    requires n == 10
    ensures |Pieces(n + 1)| > CAP && Times(Pieces(n + 1)[..CAP], Pixel(0, 1)) == 0
  {
    var p, all := Pixel(0, 1), Pieces(n + 1);
    hide Pieces, Times, Pair, Covers;
    LastPair(n + 1);
    AtMostOnceLeft(n, p);
    BesideFirst();
    TimesPositive(all[CAP..], 0, p);
    assert all == all[..CAP] + all[CAP..];
    TimesConcat(all[..CAP], all[CAP..], p);
  }

  /** The stage of spot `n`, the eleventh, makes 34 fragments and drops two. */
  lemma EleventhStage(n: nat)
    requires n == 10
    ensures !Roomy([Column], Spots(n + 1)) && Times(Stages([Column], Spots(n + 1)), Pixel(0, 1)) == 0
  {
    hide Flat, Pieces, Times, Stages, Roomy, Spots, Spot;
    SpotsNext(n);
    TenSpots(n);
    StagesSnoc([Column], Spots(n), Spot(n));
    PiecesStep(n);
    PiecesCount(n + 1);
    CutLosesBeside(n);
  }

  /** Eleven or more single pixels on a column: the eleventh leaves 34 fragments, of which
      two are dropped, and the pixel beside the first spot is visible and not covered. */
  lemma {:induction false} EleventhSpotDrops(n: nat)
    requires 11 <= n <= 49
    ensures Covers(Column, Pixel(0, 1)) && !Hidden(Spots(n), Pixel(0, 1))
    ensures !Roomy([Column], Spots(n)) && Times(Visible(Column, Spots(n)), Pixel(0, 1)) == 0
  {
    hide Flat, Times, Stages, Stage, Roomy, Spots, Spot, Hidden, Covers;
    SpotsClear(n);
    BesideFirst();
    if n == 11 {
      EleventhStage(n - 1);
    } else {
      EleventhSpotDrops(n - 1);
      SpotsNext(n - 1);
      StagesSnoc([Column], Spots(n - 1), Spot(n - 1));
      StageBound(Stages([Column], Spots(n - 1)), Spot(n - 1), Pixel(0, 1));
    }
  }

  lemma {:induction false} SpotsClear(n: nat)
    requires n <= 49
    ensures !Hidden(Spots(n), Pixel(0, 1))
  {
    if n > 0 { SpotsClear(n - 1); }
  }

  lemma {:induction false} LastPair(n: nat)
    requires 0 < n <= 49
    ensures |Pieces(n)| == 3 * n + 1 && Pieces(n)[3 * n - 1..] == Pair(0)
  {
    PiecesCount(n);
    PairsEnd(n);
    hide Pairs, Rows, Foot, Pair;
    assert Pieces(n)[3 * n - 1..] == Pairs(n)[2 * n - 2..];
  }

  lemma {:induction false} PairsEnd(n: nat)
    requires 0 < n <= 49
    ensures |Pairs(n)| == 2 * n && Pairs(n)[2 * n - 2..] == Pair(0)
  {
    PiecesCount(n);
    if n == 1 {
      assert Pairs(1) == Pair(0) + [];
    } else {
      PairsEnd(n - 1);
      assert Pairs(n)[2 * n - 2..] == Pairs(n - 1)[2 * n - 4..];
    }
  }

  // ----- The code ---------------------------------------------------------

  /** `Rect::subtract`. */
  method Subtract(self: Rect, occluder: Rect, out: array<Rect>) returns (count: nat)
    requires out.Length == 4
    modifies out
    ensures count <= 4 && out[..count] == Difference(self, occluder)
  {
    if self.IsEmpty() { return 0; }
    var found := Intersect(self, occluder);
    if found.None? {
      out[0] := self;
      return 1;
    }
    var inter := found.value;
    InsideBoth(self, occluder);
    if Contains(occluder, self) {
      return 0;
    }
    hide Intersect, Inside, Contains, Top, Below, Left, RightOf, Rect.Right, Rect.Bottom;
    count := 0;
    if inter.y > self.y {
      out[count] := Top(self, inter);
      count := count + 1;
    }
    assert out[..count] == Only(inter.y > self.y, Top(self, inter));
    ghost var done := out[..count];
    if self.Bottom() > inter.Bottom() {
      out[count] := Below(self, inter);
      count := count + 1;
    }
    assert out[..count] == done + Only(self.Bottom() > inter.Bottom(), Below(self, inter));
    done := out[..count];
    if inter.x > self.x {
      out[count] := Left(self, inter);
      count := count + 1;
    }
    assert out[..count] == done + Only(inter.x > self.x, Left(self, inter));
    done := out[..count];
    if self.Right() > inter.Right() {
      out[count] := RightOf(self, inter);
      count := count + 1;
    }
    assert out[..count] == done + Only(self.Right() > inter.Right(), RightOf(self, inter));
  }

  /** The inner copying loop: pieces are appended while there is room. */
  method Append(next: array<Rect>, nextLen: nat, sub: array<Rect>, subLen: nat) returns (len: nat)
    requires next.Length == CAP && nextLen <= CAP && subLen <= sub.Length && next != sub
    modifies next
    ensures len <= CAP && next[..len] == Cut(old(next[..nextLen]) + sub[..subLen])
  {
    len := nextLen;
    ghost var start := next[..nextLen];
    for k := 0 to subLen
      invariant len <= CAP && next[..len] == Cut(start + sub[..k])
    {
      assert sub[..k + 1] == sub[..k] + [sub[k]];
      assert start + sub[..k + 1] == start + sub[..k] + [sub[k]];
      if len < CAP {
        next[len] := sub[k];
        len := len + 1;
      }
    }
  }

  lemma CutAgain(a: seq<Rect>, b: seq<Rect>)
    ensures Cut(Cut(a) + b) == Cut(a + b)
  {
  }

  /** One occluder's turn in `compute_visible_rects`. */
  method Occlude(current: array<Rect>, currentLen: nat, occ: Rect) returns (next: array<Rect>, nextLen: nat)
    requires current.Length == CAP && currentLen <= CAP
    ensures fresh(next) && next.Length == CAP && nextLen <= CAP
    ensures next[..nextLen] == Cut(Flat(current[..currentLen], occ))
  {
    next := new Rect[32](_ => Rect(0, 0, 0, 0));
    nextLen := 0;
    for i := 0 to currentLen
      invariant nextLen <= CAP && fresh(next) && next.Length == CAP
      invariant next[..nextLen] == Cut(Flat(current[..i], occ))
    {
      hide Difference;
      var sub := new Rect[4](_ => Rect(0, 0, 0, 0));
      var subLen := Subtract(current[i], occ, sub);
      assert current[..i + 1][..i] == current[..i];
      CutAgain(Flat(current[..i], occ), Difference(current[i], occ));
      nextLen := Append(next, nextLen, sub, subLen);
    }
  }

  /** `Rect::compute_visible_rects`. */
  method ComputeVisibleRects(target: Rect, occluders: seq<Rect>, out: array<Rect>) returns (n: nat)
    requires out.Length == CAP
    modifies out
    ensures n <= CAP && out[..n] == Visible(target, occluders)
  {
    if target.IsEmpty() { return 0; }
    var current := new Rect[32](_ => Rect(0, 0, 0, 0));
    var currentLen: nat := 1;
    current[0] := target;
    assert current[..1] == [target];
    var k := 0;
    while k < |occluders|
      invariant k <= |occluders| && fresh(current) && current.Length == CAP && currentLen <= CAP
      invariant Stages(current[..currentLen], occluders[k..]) == Stages([target], occluders)
    {
      hide Flat;
      var occ := occluders[k];
      assert occluders[k..][0] == occ && occluders[k..][1..] == occluders[k + 1..];
      if !occ.IsEmpty() {
        if currentLen == 0 {
          NothingLeft(occluders[k..]);
          break;
        }
        var next, nextLen := Occlude(current, currentLen, occ);
        current, currentLen := next, nextLen;
      }
      k := k + 1;
    }
    for i := 0 to currentLen
      invariant out[..i] == current[..i] && current[..currentLen] == Visible(target, occluders)
    {
      out[i] := current[i];
    }
    n := currentLen;
  }

  lemma {:induction false} NothingLeft(occs: seq<Rect>)
    ensures Stages([], occs) == []
    decreases |occs|
  {
    if occs != [] { NothingLeft(occs[1..]); }
  }
}
