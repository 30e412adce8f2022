/** The compositor's damage region: at most 16 dirty rectangles, merged when they
    overlap or touch.

    `add_rect` computes edges in wrapping 32-bit arithmetic, and a union that spans 2^31
    or more comes out empty.  `AddFits` says that no union of a call does; it is proved to
    be exactly the condition under which the call loses no pixel. */
module Damage {
  import opened Geometry

  const MAX_DIRTY_RECTS: nat := 16

  // ----- Edges, touching, union -------------------------------------------

  function Wrap(v: int): I32 { (v + 0x8000_0000) % 0x1_0000_0000 - 0x8000_0000 }

  function EndX(r: Rect): I32 { Wrap(r.x + AsI32(r.width)) }

  function EndY(r: Rect): I32 { Wrap(r.y + AsI32(r.height)) }

  /** `rects_overlap_or_adjacent`. */
  predicate Touch(a: Rect, b: Rect) {
    !(b.x > EndX(a) || EndX(b) < a.x || b.y > EndY(a) || EndY(b) < a.y)
  }

  /** `union_rect`. */
  function Union(a: Rect, b: Rect): Rect {
    var x0, y0 := Min(a.x, b.x), Min(a.y, b.y);
    var x1, y1 := Max(EndX(a), EndX(b)), Max(EndY(a), EndY(b));
    Rect(x0, y0, Max(Wrap(x1 - x0), 0), Max(Wrap(y1 - y0), 0))
  }

  /** A rectangle with pixels whose edges fit in 32 bits. */
  predicate Proper(r: Rect) { r.Fits() && !r.IsEmpty() }

  lemma ProperEnds(r: Rect)
    requires r.Fits()
    ensures EndX(r) == r.x + r.width == r.Right() && EndY(r) == r.y + r.height == r.Bottom()
  {
  }

  predicate Near(p: Pixel, q: Pixel) { -1 <= p.x - q.x <= 1 && -1 <= p.y - q.y <= 1 }

  /** Rectangles touch exactly when two of their pixels are the same or neighbours,
      corners included. */
  lemma TouchMeansNear(a: Rect, b: Rect)
    requires Proper(a) && Proper(b)
    ensures Touch(a, b) <==> exists p: Pixel, q: Pixel :: Covers(a, p) && Covers(b, q) && Near(p, q)
  {
    ProperEnds(a);
    ProperEnds(b);
    if Touch(a, b) {
      var p := Pixel(Max(a.x, Min(b.x, a.Right() - 1)), Max(a.y, Min(b.y, a.Bottom() - 1)));
      var q := Pixel(Max(b.x, Min(p.x, b.Right() - 1)), Max(b.y, Min(p.y, b.Bottom() - 1)));
      assert Covers(a, p) && Covers(b, q) && Near(p, q);
    }
  }

  /** The union spans less than 2^31 both ways. */
  predicate SpanFits(a: Rect, b: Rect) {
    && Max(EndX(a), EndX(b)) - Min(a.x, b.x) <= MAX_I32
    && Max(EndY(a), EndY(b)) - Min(a.y, b.y) <= MAX_I32
  }

  /** `union_rect` contains both rectangles if and only if it spans less than 2^31; else
      it has no pixel at all. */
  lemma UnionExactIff(a: Rect, b: Rect)
    requires Proper(a) && Proper(b)
    ensures SpanFits(a, b) <==> forall p: Pixel :: Covers(a, p) || Covers(b, p) ==> Covers(Union(a, b), p)
    ensures !SpanFits(a, b) ==> Union(a, b).IsEmpty()
  {
    ProperEnds(a);
    ProperEnds(b);
    if !SpanFits(a, b) {
      assert Union(a, b).IsEmpty();
      assert Covers(a, Pixel(a.x, a.y)) && !Covers(Union(a, b), Pixel(a.x, a.y));
    } else {
      UnionFits(a, b);
    }
  }

  lemma UnionFits(a: Rect, b: Rect)
    requires Proper(a) && Proper(b) && SpanFits(a, b)
    ensures Proper(Union(a, b)) && Union(a, b).x == Min(a.x, b.x) && Union(a, b).y == Min(a.y, b.y)
    ensures Union(a, b).Right() == Max(a.Right(), b.Right()) && Union(a, b).Bottom() == Max(a.Bottom(), b.Bottom())
  {
    hide Wrap, EndX, EndY;
    ProperEnds(a);
    ProperEnds(b);
    WrapSmall(Max(EndX(a), EndX(b)) - Min(a.x, b.x));
    WrapSmall(Max(EndY(a), EndY(b)) - Min(a.y, b.y));
  }

  /** It covers no more than it must: it lies inside every rectangle both lie in. */
  lemma UnionIsLeast(a: Rect, b: Rect, f: Rect)
    requires Proper(a) && Proper(b) && SpanFits(a, b) && Within(f, a) && Within(f, b)
    ensures Within(f, Union(a, b))
  {
    ProperEnds(a);
    ProperEnds(b);
    UnionFits(a, b);
  }

  lemma WrapSmall(v: int)
    requires MIN_I32 <= v <= MAX_I32
    ensures Wrap(v) == v
  {
  }

  /** Two rectangles that overlap and whose union loses both. */
  lemma WideUnionIsEmpty()
    ensures var a, b := Rect(-0x7000_0000, 0, 0x7100_0000, 1), Rect(0, 0, 0x7000_0000, 1);
            && Proper(a) && Proper(b) && Touch(a, b) && Union(a, b).IsEmpty()
            && forall p: Pixel :: Covers(a, p) ==> !Covers(Add(Add([], a), b)[0], p)
  {
    var a, b := Rect(-0x7000_0000, 0, 0x7100_0000, 1), Rect(0, 0, 0x7000_0000, 1);
    ProperEnds(a);
    ProperEnds(b);
    UnionExactIff(a, b);
    assert Merge([], a, 0) == ([], a);
    assert Add([], a) == [a];
    assert Merge([a], b, 0) == Merge(Drop([a], 0), Union(a, b), 0);
    assert Drop([a], 0) == [];
    assert Merge([], Union(a, b), 0) == ([], Union(a, b));
  }

  // ----- Adding -----------------------------------------------------------

  /** Swapping slot `i` with the last one and forgetting it. */
  function Drop(rs: seq<Rect>, i: nat): seq<Rect>
    requires i < |rs|
  {
    rs[i := rs[|rs| - 1]][..|rs| - 1]
  }

  /** The merge loop from slot `i` on: what is left, and the grown rectangle. */
  function Merge(rs: seq<Rect>, r: Rect, i: nat): (seq<Rect>, Rect)
    requires i <= |rs|
    decreases |rs|, |rs| - i
  {
    if i == |rs| then (rs, r)
    else if Touch(rs[i], r) then Merge(Drop(rs, i), Union(rs[i], r), 0)
    else Merge(rs, r, i + 1)
  }

  function Bounding(r: Rect, rs: seq<Rect>): Rect {
    if rs == [] then r else Union(Bounding(r, rs[..|rs| - 1]), rs[|rs| - 1])
  }

  /** The region after `add_rect`. */
  function Add(rs: seq<Rect>, r: Rect): seq<Rect> {
    if r.IsEmpty() then rs else
    var (kept, grown) := Merge(rs, r, 0);
    if |kept| < MAX_DIRTY_RECTS then kept + [grown] else [Bounding(grown, kept)]
  }

  // ----- When no union is too wide ----------------------------------------

  /** Every union of the merge loop spans less than 2^31. */
  predicate MergeFits(rs: seq<Rect>, r: Rect, i: nat)
    requires i <= |rs|
    decreases |rs|, |rs| - i
  {
    if i == |rs| then true
    else if Touch(rs[i], r) then SpanFits(rs[i], r) && MergeFits(Drop(rs, i), Union(rs[i], r), 0)
    else MergeFits(rs, r, i + 1)
  }

  predicate BoundingFits(r: Rect, rs: seq<Rect>) {
    rs == [] || (BoundingFits(r, rs[..|rs| - 1]) && SpanFits(Bounding(r, rs[..|rs| - 1]), rs[|rs| - 1]))
  }

  /** Every union of an `add_rect` call spans less than 2^31. */
  predicate AddFits(rs: seq<Rect>, r: Rect) {
    r.IsEmpty() ||
    (MergeFits(rs, r, 0) && var m := Merge(rs, r, 0); |m.0| >= MAX_DIRTY_RECTS ==> BoundingFits(m.1, m.0))
  }

  // ----- What every region keeps ------------------------------------------

  predicate AllProper(rs: seq<Rect>) { forall k :: 0 <= k < |rs| ==> Proper(rs[k]) }

  /** No two stored rectangles overlap or touch. */
  predicate Apart(rs: seq<Rect>) { forall i, k :: 0 <= i < k < |rs| ==> !Touch(rs[i], rs[k]) }

  predicate RegionOk(rs: seq<Rect>) { |rs| <= 16 && AllProper(rs) && Apart(rs) }

  lemma UnionCovers(a: Rect, b: Rect)
    requires Proper(a) && Proper(b) && SpanFits(a, b)
    ensures Proper(Union(a, b))
    ensures forall p: Pixel :: Covers(a, p) || Covers(b, p) ==> Covers(Union(a, b), p)
  {
    UnionFits(a, b);
    UnionExactIff(a, b);
  }

  lemma TouchSymmetric(a: Rect, b: Rect)
    ensures Touch(a, b) == Touch(b, a)
  {
  }

  lemma DropKeeps(rs: seq<Rect>, i: nat)
    requires i < |rs| && AllProper(rs) && Apart(rs)
    ensures |Drop(rs, i)| == |rs| - 1 && AllProper(Drop(rs, i)) && Apart(Drop(rs, i))
  {
    hide Touch, Proper;
    var d := Drop(rs, i);
    forall a, b | 0 <= a < b < |d| ensures !Touch(d[a], d[b]) {
      if a == i { TouchSymmetric(rs[|rs| - 1], rs[b]); }
    }
  }

  lemma DropCovers(rs: seq<Rect>, i: nat, p: Pixel)
    requires i < |rs| && Hidden(rs, p)
    ensures Hidden(Drop(rs, i), p) || Covers(rs[i], p)
  {
    hide Covers;
    var k :| 0 <= k < |rs| && Covers(rs[k], p);
    var d := Drop(rs, i);
    if k == |rs| - 1 && k != i {
      assert d[i] == rs[k];
    } else if k != i {
      assert d[k] == rs[k];
    }
  }

  /** The merge loop: what is left is proper and apart, and does not touch the grown
      rectangle, whatever that is. */
  lemma {:induction false} MergeKeeps(rs: seq<Rect>, r: Rect, i: nat)
    requires AllProper(rs) && Apart(rs) && r.Fits() && i <= |rs|
    requires forall k :: 0 <= k < i ==> !Touch(rs[k], r)
    ensures var m := Merge(rs, r, i);
            && |m.0| <= |rs| && AllProper(m.0) && Apart(m.0) && m.1.Fits()
            && (forall k :: 0 <= k < |m.0| ==> !Touch(m.0[k], m.1))
            && (Proper(r) && MergeFits(rs, r, i) ==> Proper(m.1))
    decreases |rs|, |rs| - i
  {
    hide Touch, Union, Drop, SpanFits;
    if i < |rs| {
      if Touch(rs[i], r) {
        DropKeeps(rs, i);
        UnionStaysFit(rs[i], r);
        if Proper(r) && SpanFits(rs[i], r) { UnionCovers(rs[i], r); }
        MergeKeeps(Drop(rs, i), Union(rs[i], r), 0);
      } else {
        MergeKeeps(rs, r, i + 1);
      }
    }
  }

  /** A union's edges fit in 32 bits, even when it comes out empty. */
  lemma UnionStaysFit(a: Rect, b: Rect)
    requires a.Fits() && b.Fits()
    ensures Union(a, b).Fits()
  {
    ProperEnds(a);
    ProperEnds(b);
  }

  lemma {:induction false} MergeCovers(rs: seq<Rect>, r: Rect, i: nat, p: Pixel)
    requires AllProper(rs) && Apart(rs) && Proper(r) && i <= |rs| && MergeFits(rs, r, i)
    requires Hidden(rs, p) || Covers(r, p)
    ensures var m := Merge(rs, r, i); Hidden(m.0, p) || Covers(m.1, p)
    decreases |rs|, |rs| - i
  {
    hide Touch, Proper, Union, Drop, Covers, Hidden, Apart, SpanFits;
    if i < |rs| {
      if Touch(rs[i], r) {
        DropKeeps(rs, i);
        UnionCovers(rs[i], r);
        if Hidden(rs, p) { DropCovers(rs, i, p); }
        MergeCovers(Drop(rs, i), Union(rs[i], r), 0, p);
      } else {
        MergeCovers(rs, r, i + 1, p);
      }
    }
  }

  lemma {:induction false} BoundingCovers(r: Rect, rs: seq<Rect>)
    requires AllProper(rs) && Proper(r) && BoundingFits(r, rs)
    ensures Proper(Bounding(r, rs))
    ensures forall p: Pixel :: Hidden(rs, p) || Covers(r, p) ==> Covers(Bounding(r, rs), p)
  {
    hide Union, Covers, Proper, SpanFits;
    if rs != [] {
      var front, last := rs[..|rs| - 1], rs[|rs| - 1];
      BoundingCovers(r, front);
      UnionCovers(Bounding(r, front), last);
      forall p: Pixel | Hidden(rs, p) || Covers(r, p) ensures Covers(Bounding(r, rs), p) {
        if Hidden(rs, p) {
          var k :| 0 <= k < |rs| && Covers(rs[k], p);
          if k < |front| { assert Covers(front[k], p); }
        }
      }
    }
  }

  /** `add_rect` keeps the rectangles apart and at most 16 and, if no union is too wide,
      loses no pixel. */
  lemma AddKeeps(rs: seq<Rect>, r: Rect)
    requires RegionOk(rs) && (r.IsEmpty() || Proper(r)) && AddFits(rs, r)
    ensures RegionOk(Add(rs, r)) && !Loses(rs, r)
  {
    if r.IsEmpty() {
      assert forall p: Pixel :: !Covers(r, p);
    } else {
      hide Touch, Proper, Merge, MergeFits, Covers, SpanFits, BoundingFits, Bounding, Rect.IsEmpty;
      var m, rs' := Merge(rs, r, 0), Add(rs, r);
      ProperFits(r);
      MergeKeeps(rs, r, 0);
      if |m.0| >= MAX_DIRTY_RECTS { BoundingCovers(m.1, m.0); }
      forall p: Pixel | Hidden(rs, p) || Covers(r, p) ensures Hidden(rs', p) {
        MergeCovers(rs, r, 0, p);
        if |m.0| < MAX_DIRTY_RECTS {
          HiddenSnoc(m.0, m.1, p);
        } else {
          assert Covers(rs'[0], p);
        }
      }
    }
  }

  lemma ProperFits(r: Rect)
    requires Proper(r)
    ensures r.Fits()
  {
  }

  /** No pixel of `r` is one of the region's or next to one. */
  ghost predicate Far(rs: seq<Rect>, r: Rect) {
    forall k, p: Pixel, q: Pixel :: 0 <= k < |rs| && Covers(rs[k], p) && Covers(r, q) ==> !Near(p, q)
  }

  lemma {:induction false} NothingToMerge(rs: seq<Rect>, r: Rect, i: nat)
    requires i <= |rs| && forall k :: 0 <= k < |rs| ==> !Touch(rs[k], r)
    ensures Merge(rs, r, i) == (rs, r)
    decreases |rs| - i
  {
    hide Touch;
    if i < |rs| { NothingToMerge(rs, r, i + 1); }
  }

  /** A rectangle away from all others is stored as it is, the others as they were; only
      the seventeenth such makes the region one rectangle. */
  lemma FarRectIsStored(rs: seq<Rect>, r: Rect)
    requires RegionOk(rs) && Proper(r) && Far(rs, r)
    ensures |rs| < 16 ==> Add(rs, r) == rs + [r]
    ensures |rs| == 16 ==> |Add(rs, r)| == 1
  {
    hide Touch, Proper, Covers, Near;
    forall k | 0 <= k < |rs| ensures !Touch(rs[k], r) { TouchMeansNear(rs[k], r); }
    NothingToMerge(rs, r, 0);
    NotEmpty(r);
  }

  lemma NotEmpty(r: Rect)
    requires Proper(r)
    ensures !r.IsEmpty()
  {
  }

  // ----- The condition is exact -------------------------------------------

  /** Some pixel of the region or of the new rectangle is no longer covered. */
  ghost predicate Loses(rs: seq<Rect>, r: Rect) {
    exists p: Pixel :: (Hidden(rs, p) || Covers(r, p)) && !Hidden(Add(rs, r), p)
  }

  predicate Within(f: Rect, q: Rect) {
    f.x <= q.x && q.x + q.width <= f.x + f.width && f.y <= q.y && q.y + q.height <= f.y + f.height
  }

  ghost predicate InsideOne(fs: seq<Rect>, q: Rect) { exists j :: 0 <= j < |fs| && Within(fs[j], q) }

  ghost predicate AllInside(fs: seq<Rect>, rs: seq<Rect>) { forall k :: 0 <= k < |rs| ==> InsideOne(fs, rs[k]) }

  /** Rectangles that are apart have no neighbouring pixels. */
  lemma NearIsSame(fs: seq<Rect>, j: nat, m: nat, p: Pixel, q: Pixel)
    requires AllProper(fs) && Apart(fs) && j < |fs| && m < |fs| && Covers(fs[j], p) && Covers(fs[m], q) && Near(p, q)
    ensures j == m
  {
    hide Touch;
    TouchMeansNear(fs[j], fs[m]);
    TouchSymmetric(fs[j], fs[m]);
  }

  /** Going along a row of covered pixels never leaves the rectangle it started in. */
  lemma {:induction false} RowStays(fs: seq<Rect>, j: nat, q: Rect, n: nat)
    requires AllProper(fs) && Apart(fs) && Proper(q) && forall p: Pixel :: Covers(q, p) ==> Hidden(fs, p)
    requires j < |fs| && Covers(fs[j], Pixel(q.x, q.y)) && n < q.width
    ensures Covers(fs[j], Pixel(q.x + n, q.y))
  {
    if n > 0 {
      RowStays(fs, j, q, n - 1);
      var p := Pixel(q.x + n, q.y);
      assert Covers(q, p);
      var m :| 0 <= m < |fs| && Covers(fs[m], p);
      NearIsSame(fs, j, m, Pixel(q.x + n - 1, q.y), p);
    }
  }

  lemma {:induction false} ColumnStays(fs: seq<Rect>, j: nat, q: Rect, n: nat)
    requires AllProper(fs) && Apart(fs) && Proper(q) && forall p: Pixel :: Covers(q, p) ==> Hidden(fs, p)
    requires j < |fs| && Covers(fs[j], Pixel(q.x + q.width - 1, q.y)) && n < q.height
    ensures Covers(fs[j], Pixel(q.x + q.width - 1, q.y + n))
  {
    if n > 0 {
      ColumnStays(fs, j, q, n - 1);
      var p := Pixel(q.x + q.width - 1, q.y + n);
      assert Covers(q, p);
      var m :| 0 <= m < |fs| && Covers(fs[m], p);
      NearIsSame(fs, j, m, Pixel(q.x + q.width - 1, q.y + n - 1), p);
    }
  }

  /** A rectangle covered by rectangles that are apart lies inside one of them. */
  lemma CoveredIsInsideOne(fs: seq<Rect>, q: Rect)
    requires AllProper(fs) && Apart(fs) && Proper(q) && forall p: Pixel :: Covers(q, p) ==> Hidden(fs, p)
    ensures InsideOne(fs, q)
  {
    hide Apart;
    assert Covers(q, Pixel(q.x, q.y));
    var j :| 0 <= j < |fs| && Covers(fs[j], Pixel(q.x, q.y));
    RowStays(fs, j, q, q.width - 1);
    ColumnStays(fs, j, q, q.height - 1);
    assert Within(fs[j], q);
  }

  lemma TouchGrows(f: Rect, g: Rect, a: Rect, b: Rect)
    requires Proper(f) && Proper(g) && Proper(a) && Proper(b) && Within(f, a) && Within(g, b) && Touch(a, b)
    ensures Touch(f, g)
  {
    ProperEnds(f);
    ProperEnds(g);
    ProperEnds(a);
    ProperEnds(b);
  }

  lemma UnionWithin(f: Rect, a: Rect, b: Rect)
    requires Proper(f) && Proper(a) && Proper(b) && Within(f, a) && Within(f, b)
    ensures SpanFits(a, b) && Proper(Union(a, b)) && Within(f, Union(a, b))
  {
    ProperEnds(a);
    ProperEnds(b);
    UnionFits(a, b);
  }

  lemma TouchingUnionInside(fs: seq<Rect>, a: Rect, b: Rect)
    requires AllProper(fs) && Apart(fs) && Proper(a) && Proper(b) && InsideOne(fs, a) && InsideOne(fs, b) && Touch(a, b)
    ensures SpanFits(a, b) && Proper(Union(a, b)) && InsideOne(fs, Union(a, b))
  {
    hide Touch, Union, SpanFits, Within, Proper;
    var j :| 0 <= j < |fs| && Within(fs[j], a);
    var m :| 0 <= m < |fs| && Within(fs[m], b);
    TouchGrows(fs[j], fs[m], a, b);
    TouchSymmetric(fs[j], fs[m]);
    assert j == m;
    UnionWithin(fs[j], a, b);
  }

  /** If all rectangles lie inside rectangles that are apart, no union is too wide. */
  lemma {:induction false} MergeStaysInside(fs: seq<Rect>, rs: seq<Rect>, r: Rect, i: nat)
    requires AllProper(fs) && Apart(fs) && AllProper(rs) && Apart(rs) && Proper(r) && i <= |rs|
    requires AllInside(fs, rs) && InsideOne(fs, r)
    ensures var m := Merge(rs, r, i);
            MergeFits(rs, r, i) && AllInside(fs, m.0) && InsideOne(fs, m.1) && AllProper(m.0) && Proper(m.1)
    decreases |rs|, |rs| - i
  {
    hide Touch, Union, SpanFits, Proper, InsideOne, Apart;
    if i < |rs| {
      if Touch(rs[i], r) {
        TouchingUnionInside(fs, rs[i], r);
        DropKeeps(rs, i);
        MergeStaysInside(fs, Drop(rs, i), Union(rs[i], r), 0);
      } else {
        MergeStaysInside(fs, rs, r, i + 1);
      }
    }
  }

  lemma {:induction false} BoundingStaysInside(f: Rect, r: Rect, rs: seq<Rect>)
    requires Proper(f) && Proper(r) && AllProper(rs) && Within(f, r) && forall k :: 0 <= k < |rs| ==> Within(f, rs[k])
    ensures BoundingFits(r, rs) && Proper(Bounding(r, rs)) && Within(f, Bounding(r, rs))
  {
    hide Union, SpanFits, Within, Proper;
    if rs != [] {
      var front := rs[..|rs| - 1];
      BoundingStaysInside(f, r, front);
      UnionWithin(f, Bounding(r, front), rs[|rs| - 1]);
    }
  }

  lemma InsideOnly(f: Rect, q: Rect)
    requires InsideOne([f], q)
    ensures Within(f, q)
  {
  }

  /** If everything lies inside one rectangle that fits, no union of the call is too wide,
      and the region stays inside it. */
  lemma AddInside(f: Rect, rs: seq<Rect>, r: Rect)
    requires Proper(f) && AllProper(rs) && Apart(rs) && (r.IsEmpty() || (Proper(r) && Within(f, r)))
    requires forall k :: 0 <= k < |rs| ==> Within(f, rs[k])
    ensures AddFits(rs, r) && forall k :: 0 <= k < |Add(rs, r)| ==> Within(f, Add(rs, r)[k])
  {
    if !r.IsEmpty() {
      hide Merge, MergeFits, Touch, Within, Proper, Bounding, BoundingFits;
      forall k | 0 <= k < |rs| ensures InsideOne([f], rs[k]) { assert Within([f][0], rs[k]); }
      assert Within([f][0], r);
      MergeStaysInside([f], rs, r, 0);
      var m := Merge(rs, r, 0);
      InsideOnly(f, m.1);
      forall k | 0 <= k < |m.0| ensures Within(f, m.0[k]) { InsideOnly(f, m.0[k]); }
      BoundingStaysInside(f, m.1, m.0);
    }
  }

  /** A region that covers all it should keeps every union narrow: fewer than 16 left. */
  lemma CoverFitsApart(rs: seq<Rect>, r: Rect)
    requires RegionOk(rs) && Proper(r) && !Loses(rs, r) && |Merge(rs, r, 0).0| < MAX_DIRTY_RECTS
    ensures AddFits(rs, r)
  {
    hide Touch, Merge, MergeFits, Covers, Near, SpanFits, Union;
    var m := Merge(rs, r, 0);
    MergeKeeps(rs, r, 0);
    var fs := if Proper(m.1) then m.0 + [m.1] else m.0;
    assert Add(rs, r) == m.0 + [m.1];
    forall p: Pixel | Hidden(rs, p) || Covers(r, p) ensures Hidden(fs, p) {
      assert Hidden(Add(rs, r), p);
      HiddenSnoc(m.0, m.1, p);
      if !Proper(m.1) { EmptyCovers(m.1, p); }
    }
    forall k | 0 <= k < |rs| ensures InsideOne(fs, rs[k]) {
      forall p: Pixel | Covers(rs[k], p) ensures Hidden(fs, p) { assert Hidden(rs, p); }
      CoveredIsInsideOne(fs, rs[k]);
    }
    CoveredIsInsideOne(fs, r);
    MergeStaysInside(fs, rs, r, 0);
  }

  lemma EmptyCovers(r: Rect, p: Pixel)
    requires r.IsEmpty()
    ensures !Covers(r, p)
  {
  }

  /** The same when the 17th rectangle forces everything into one. */
  lemma CoverFitsOne(rs: seq<Rect>, r: Rect)
    requires RegionOk(rs) && Proper(r) && !Loses(rs, r) && |Merge(rs, r, 0).0| >= MAX_DIRTY_RECTS
    ensures AddFits(rs, r)
  {
    hide Touch, Merge, MergeFits, Covers, Near, SpanFits, Union, Bounding, BoundingFits;
    var m := Merge(rs, r, 0);
    MergeKeeps(rs, r, 0);
    var f := Bounding(m.1, m.0);
    assert Add(rs, r) == [f];
    BoundingStaysFit(m.1, m.0);
    assert Covers(r, Pixel(r.x, r.y)) by { HasCorner(r); }
    assert Hidden([f], Pixel(r.x, r.y));
    if f.IsEmpty() { EmptyCovers(f, Pixel(r.x, r.y)); assert false; }
    forall k | 0 <= k < |rs| ensures Within(f, rs[k]) {
      forall p: Pixel | Covers(rs[k], p) ensures Hidden([f], p) { assert Hidden(rs, p); }
      CoveredIsInsideOne([f], rs[k]);
      InsideOnly(f, rs[k]);
    }
    CoveredIsInsideOne([f], r);
    InsideOnly(f, r);
    AddInside(f, rs, r);
  }

  lemma HasCorner(r: Rect)
    requires Proper(r)
    ensures Covers(r, Pixel(r.x, r.y))
  {
  }

  lemma {:induction false} BoundingStaysFit(r: Rect, rs: seq<Rect>)
    requires r.Fits() && AllProper(rs)
    ensures Bounding(r, rs).Fits()
  {
    hide Union;
    if rs != [] {
      BoundingStaysFit(r, rs[..|rs| - 1]);
      UnionStaysFit(Bounding(r, rs[..|rs| - 1]), rs[|rs| - 1]);
    }
  }

  /** `add_rect` loses no pixel if and only if none of its unions spans 2^31 or more. */
  lemma AddExactIff(rs: seq<Rect>, r: Rect)
    requires RegionOk(rs) && Proper(r)
    ensures AddFits(rs, r) <==> !Loses(rs, r)
  {
    hide RegionOk, Proper, Merge, AddFits, Loses;
    if AddFits(rs, r) {
      AddKeeps(rs, r);
    } else if !Loses(rs, r) {
      if |Merge(rs, r, 0).0| < MAX_DIRTY_RECTS { CoverFitsApart(rs, r); } else { CoverFitsOne(rs, r); }
    }
  }

  // ----- Whole frames -----------------------------------------------------

  /** The region after adding all of `added` since the last clear. */
  function AddAll(added: seq<Rect>): seq<Rect> {
    if added == [] then [] else Add(AddAll(added[..|added| - 1]), added[|added| - 1])
  }

  /** No union of any of the calls is too wide. */
  predicate AllFits(added: seq<Rect>) {
    added == [] || (AllFits(added[..|added| - 1]) && AddFits(AddAll(added[..|added| - 1]), added[|added| - 1]))
  }

  predicate AllAddable(added: seq<Rect>) { forall k :: 0 <= k < |added| ==> added[k].IsEmpty() || Proper(added[k]) }

  /** After any number of calls none of which makes a union too wide, every pixel ever
      added is covered, no two stored rectangles overlap or touch, and at most 16 are
      stored. */
  lemma {:induction false} NothingIsLost(added: seq<Rect>)
    requires AllAddable(added) && AllFits(added)
    ensures RegionOk(AddAll(added))
    ensures forall p: Pixel :: Hidden(added, p) ==> Hidden(AddAll(added), p)
  {
    if added != [] {
      hide Add, AddFits, Covers, Proper, RegionOk, Rect.IsEmpty;
      var front, last := added[..|added| - 1], added[|added| - 1];
      NothingIsLost(front);
      AddKeeps(AddAll(front), last);
      forall p: Pixel | Hidden(added, p) ensures Hidden(AddAll(added), p) {
        var k :| 0 <= k < |added| && Covers(added[k], p);
        if k < |front| { assert Covers(front[k], p); }
      }
    } else {
      assert RegionOk([]);
    }
  }

  /** Rectangles inside one box less than 2^31 wide and high, such as a screen, never make
      a union too wide. */
  lemma {:induction false} OneBoxFits(box: Rect, added: seq<Rect>)
    requires Proper(box) && AllAddable(added)
    requires forall k :: 0 <= k < |added| && !added[k].IsEmpty() ==> Within(box, added[k])
    ensures AllFits(added) && forall k :: 0 <= k < |AddAll(added)| ==> Within(box, AddAll(added)[k])
  {
    if added != [] {
      hide Add, AddFits, Proper, Within, Rect.IsEmpty;
      var front, last := added[..|added| - 1], added[|added| - 1];
      OneBoxFits(box, front);
      NothingIsLost(front);
      AddInside(box, AddAll(front), last);
    }
  }

  /** `total_pixels` counts every dirty pixel once. */
  lemma TotalIsExact(rs: seq<Rect>)
    requires RegionOk(rs)
    ensures AreaSum(rs) == |AllPixels(rs)|
  {
    forall p: Pixel ensures Times(rs, p) <= 1 { AtMostOnce(rs, p); }
    AreasAdd(rs);
  }

  lemma {:induction false} AtMostOnce(rs: seq<Rect>, p: Pixel)
    requires AllProper(rs) && Apart(rs)
    ensures Times(rs, p) <= 1
  {
    if rs != [] {
      hide Covers, Touch;
      var front, last := rs[..|rs| - 1], rs[|rs| - 1];
      AtMostOnce(front, p);
      if Times(front, p) > 0 {
        var k := TimesWitness(front, p);
        ApartMeans(rs[k], last, p);
      }
    }
  }

  lemma ApartMeans(a: Rect, b: Rect, p: Pixel)
    requires Proper(a) && Proper(b) && !Touch(a, b) && Covers(a, p)
    ensures !Covers(b, p)
  {
    ProperEnds(a);
    ProperEnds(b);
  }

  // ----- The code ---------------------------------------------------------

  class DamageRegion {
    const rects: array<Rect>
    var count: nat

    ghost predicate Valid()
      reads this
    {
      rects.Length == MAX_DIRTY_RECTS && count <= MAX_DIRTY_RECTS
    }

    /** `rects()`. */
    ghost function View(): seq<Rect>
      reads this, rects
      requires Valid()
    {
      rects[..count]
    }

    constructor ()
      ensures Valid() && fresh(rects) && View() == []
    {
      rects := new Rect[16](_ => Rect(0, 0, 0, 0));
      count := 0;
    }

    method Clear()
      requires Valid()
      modifies this
      ensures Valid() && View() == []
    {
      count := 0;
    }

    /** The restart-from-zero merge loop. */
    method MergeAll(r: Rect) returns (grown: Rect)
      requires Valid()
      modifies this, rects
      ensures Valid() && (View(), grown) == Merge(old(View()), r, 0)
    {
      grown := r;
      var i := 0;
      while i < count
        invariant Valid() && 0 <= i <= count
        invariant Merge(View(), grown, i) == Merge(old(View()), r, 0)
        decreases count, count - i
      {
        hide Touch, Union;
        ghost var rs := View();
        if Touch(rects[i], grown) {
          grown := Union(rects[i], grown);
          // Slot i is given up and the search starts over.
          rects[i], rects[count - 1] := rects[count - 1], rects[i];
          count := count - 1;
          assert View() == Drop(rs, i);
          i := 0;
        } else {
          i := i + 1;
        }
      }
    }

    method AddRect(r: Rect)
      requires Valid()
      modifies this, rects
      ensures Valid() && View() == Add(old(View()), r)
    {
      if r.width == 0 || r.height == 0 { return; }
      var grown := MergeAll(r);
      if count < MAX_DIRTY_RECTS {
        ghost var rs := View();
        rects[count] := grown;
        count := count + 1;
        assert View() == rs + [grown];
      } else {
        var bounding := grown;
        ghost var rs := View();
        for k := 0 to count
          invariant Valid() && View() == rs && count == |rs| && bounding == Bounding(grown, rs[..k])
        {
          assert rs[..k + 1][..k] == rs[..k];
          bounding := Union(bounding, rects[k]);
        }
        assert rs[..|rs|] == rs;
        rects[0] := bounding;
        count := 1;
      }
    }

    method TotalPixels() returns (n: nat)
      requires Valid()
      ensures n == AreaSum(View())
    {
      n := 0;
      for k := 0 to count
        invariant n == AreaSum(View()[..k])
      {
        assert View()[..k + 1][..k] == View()[..k];
        n := n + rects[k].Area();
      }
      assert View()[..count] == View();
    }
  }
}
