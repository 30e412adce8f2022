/** The physical page allocator: a bitmap of used pages, a bitmap of reserved pages and
    a scan hint.

    The reference allocator is the one without a hint, which always hands out the lowest
    free page.  The hint is proved never to change the answer. */
module Pmm {
  import opened Arith
  import Bitmap

  const PAGE: nat := 4096

  /** What the two bitmaps and the counters say; pages are numbered from 0 to `span`. */
  datatype State = State(span: nat, used: set<nat>, reserved: set<nat>, hint: nat, free: int, inUse: int)

  ghost function Span(first: nat, n: nat): (ps: set<nat>)
    ensures forall i: nat :: i in ps <==> first <= i < first + n
  {
    if n == 0 then {} else Span(first, n - 1) + {first + n - 1}
  }

  ghost function Upto(n: nat): set<nat> { Span(0, n) }

  lemma {:induction false} SpanSize(first: nat, n: nat)
    ensures |Span(first, n)| == n
  {
    if n > 0 { SpanSize(first, n - 1); }
  }

  ghost function FreePages(s: State): set<nat> { Upto(s.span) - s.used }

  // ----- Operations -------------------------------------------------------

  /** The first free page from `i` on, or `span`. */
  function FirstFree(s: State, i: nat): (r: nat)
    requires i <= s.span
    ensures i <= r <= s.span && (forall j: nat :: i <= j < r ==> j in s.used) && (r < s.span ==> r !in s.used)
    decreases s.span - i
  {
    if i == s.span || i !in s.used then i else FirstFree(s, i + 1)
  }

  function Take(s: State, i: nat): State {
    s.(used := s.used + {i}, hint := i, free := s.free - 1, inUse := s.inUse + 1)
  }

  /** `alloc_page_locked`: scan from the hint, and once more from 0; 0 means failure. */
  function Alloc(s: State): (State, nat)
    requires s.hint <= s.span
    decreases s.hint
  {
    var i := FirstFree(s, s.hint);
    if i < s.span then (Take(s, i), i * PAGE)
    else if s.hint > 0 then Alloc(s.(hint := 0))
    else (s, 0)
  }

  /** Whether `free_page_locked` accepts the address. */
  predicate Freeable(s: State, addr: nat) {
    addr != 0 && addr % PAGE == 0 && addr / PAGE < s.span && addr / PAGE !in s.reserved && addr / PAGE in s.used
  }

  function Free(s: State, addr: nat): State {
    if !Freeable(s, addr) then s else
    var p := addr / PAGE;
    s.(used := s.used - {p}, free := s.free + 1, inUse := s.inUse - 1, hint := if p < s.hint then p else s.hint)
  }

  function ReserveOne(s: State, i: nat): State {
    if i >= s.span || i in s.reserved then s
    else if i in s.used then s.(reserved := s.reserved + {i})
    else s.(reserved := s.reserved + {i}, used := s.used + {i}, free := s.free - 1)
  }

  function ReservePages(s: State, first: nat, n: nat): State {
    if n == 0 then s else ReserveOne(ReservePages(s, first, n - 1), first + n - 1)
  }

  /** `reserve_range_pages`: how many pages a byte range needs. */
  function RangePages(start: nat, length: nat): nat {
    if start % PAGE != 0 then (length + start % PAGE + PAGE - 1) / PAGE else (length + PAGE - 1) / PAGE
  }

  function Reserve(s: State, start: nat, length: nat): State {
    ReservePages(s, start / PAGE, RangePages(start, length))
  }

  /** Page `p` has a byte of the range. */
  predicate Overlaps(p: nat, start: nat, length: nat) { p * 4096 < start + length && start < (p + 1) * 4096 && length > 0 }

  /** Rounding outward takes exactly the pages the range has a byte in, except that an
      empty range which starts inside a page takes that page. */
  lemma ReservesOverlap(start: nat, length: nat, p: nat)
    ensures start / PAGE <= p < start / PAGE + RangePages(start, length) <==>
            Overlaps(p, start, length) || (length == 0 && start % PAGE != 0 && p == start / PAGE)
  {
  }

  /** The rounding is exact if and only if the range has a byte or starts a page. */
  lemma RoundingExactIff(start: nat, length: nat)
    ensures length > 0 || start % PAGE == 0 <==>
            forall p: nat :: start / PAGE <= p < start / PAGE + RangePages(start, length) <==> Overlaps(p, start, length)
  {
    forall p: nat ensures start / PAGE <= p < start / PAGE + RangePages(start, length) <==>
            Overlaps(p, start, length) || (length == 0 && start % PAGE != 0 && p == start / PAGE)
    {
      ReservesOverlap(start, length, p);
    }
    if length == 0 && start % PAGE != 0 {
      var p := start / PAGE;
      assert start / PAGE <= p < start / PAGE + RangePages(start, length) && !Overlaps(p, start, length);
    }
  }

  // ----- What every operation keeps ---------------------------------------

  /** All pages below the hint are used, reserved pages are used, page 0 is reserved and
      the counter counts the free pages. */
  ghost predicate Inv(s: State) {
    && s.hint <= s.span && s.used <= Upto(s.span) && s.reserved <= s.used
    && (forall i: nat :: i < s.hint ==> i in s.used)
    && (s.span > 0 ==> 0 in s.reserved)
    && s.free == |FreePages(s)|
  }

  lemma TakenCount(s: State, i: nat)
    requires i < s.span && i !in s.used
    ensures FreePages(s.(used := s.used + {i})) == FreePages(s) - {i} && i in FreePages(s)
    ensures |FreePages(s)| == |FreePages(s.(used := s.used + {i}))| + 1
  {
    var s' := s.(used := s.used + {i});
    assert FreePages(s') == FreePages(s) - {i};
  }

  /** `alloc_page` returns the lowest free page, the one a scan from 0 would find, and 0
      exactly when there is none; nothing but that page changes. */
  lemma AllocIsLowest(s: State)
    requires Inv(s)
    ensures var (s', addr) := Alloc(s); var i := FirstFree(s, 0);
            && Inv(s')
            && (addr == 0 <==> FreePages(s) == {})
            && (i < s.span ==> addr == i * 4096 && i !in s.reserved && s'.used == s.used + {i})
            && (i == s.span ==> s'.used == s.used)
            && s'.reserved == s.reserved && s'.span == s.span
  {
    hide Alloc, FirstFree;
    var i := FirstFree(s, 0);
    if i < s.span {
      AllocTakes(s);
      TakenCount(s, i);
      assert FreePages(Take(s, i)) == FreePages(s.(used := s.used + {i}));
    } else {
      assert FreePages(s) == {};
      AllocFails(s);
      assert FreePages(s.(hint := 0)) == FreePages(s);
    }
  }

  /** `free_page` puts the page back exactly when the address is that of a page which is
      used and not reserved, and does nothing otherwise. */
  lemma FreeKeeps(s: State, addr: nat)
    requires Inv(s)
    ensures var s', p := Free(s, addr), addr / 4096;
            && Inv(s') && s'.reserved == s.reserved && s'.span == s.span
            && (if addr % 4096 == 0 && p in s.used && p !in s.reserved then
                  && FreePages(s') == FreePages(s) + {p} && p !in FreePages(s)
                  && s'.used == s.used - {p} && s'.inUse == s.inUse - 1
                else s' == s)
    ensures Freeable(s, addr) <==> addr % 4096 == 0 && addr / 4096 in s.used && addr / 4096 !in s.reserved
  {
    if Freeable(s, addr) {
      var p, s' := addr / PAGE, Free(s, addr);
      assert s.used == s'.used + {p};
      TakenCount(s', p);
      assert FreePages(s) == FreePages(s'.(used := s'.used + {p}));
      assert FreePages(s') == FreePages(s) + {p};
    }
  }

  /** What was handed out can be given back: the same pages are used as before. */
  lemma AllocThenFree(s: State)
    requires Inv(s) && FreePages(s) != {}
    ensures var (s1, addr) := Alloc(s); var s2 := Free(s1, addr);
            addr != 0 && s2.used == s.used && s2.reserved == s.reserved && s2.free == s.free && s2.inUse == s.inUse
  {
    hide Alloc, FirstFree, Free;
    AllocIsLowest(s);
    var i := FirstFree(s, 0);
    AllocTakes(s);
    DivIs(i * 4096, 4096, i, 0);
    FreeKeeps(Take(s, i), i * 4096);
    assert s.used + {i} - {i} == s.used;
    assert FreePages(Free(Take(s, i), i * 4096)) == FreePages(s);
  }

  /** The page, if there is one of that number. */
  ghost function Existing(span: nat, i: nat): set<nat> { if i < span then {i} else {} }

  ghost predicate Counted(s: State) { s.free == |FreePages(s)| && s.used <= Upto(s.span) && s.reserved <= s.used }

  lemma ReserveOneCounted(s: State, i: nat)
    requires Counted(s)
    ensures Counted(ReserveOne(s, i))
  {
    var s' := ReserveOne(s, i);
    if i < s.span && i !in s.reserved {
      hide Upto;
      if i !in s.used {
        assert i in Upto(s.span) by { InUpto(s.span, i); }
        TakenCount(s, i);
        assert FreePages(s') == FreePages(s.(used := s.used + {i}));
      } else {
        assert FreePages(s') == FreePages(s);
      }
    }
  }

  lemma InUpto(n: nat, i: nat)
    ensures i in Upto(n) <==> i < n
  {
  }

  lemma ReserveOneAdds(s: State, i: nat)
    requires s.reserved <= s.used
    ensures var s' := ReserveOne(s, i);
            && s'.used == s.used + Existing(s.span, i) && s'.reserved == s.reserved + Existing(s.span, i)
            && s'.span == s.span && s'.hint == s.hint && s'.inUse == s.inUse
  {
  }

  lemma {:induction false} ReservePagesKeeps(s: State, first: nat, n: nat)
    requires Counted(s)
    ensures var s' := ReservePages(s, first, n);
            && Counted(s') && s'.span == s.span && s'.hint == s.hint && s'.inUse == s.inUse
            && s'.used == s.used + (Span(first, n) * Upto(s.span))
            && s'.reserved == s.reserved + (Span(first, n) * Upto(s.span))
  {
    hide ReserveOne, Counted, Upto, Span, Existing;
    if n == 0 {
      NoneYet(s.span, first);
    } else {
      var m := ReservePages(s, first, n - 1);
      ReservePagesKeeps(s, first, n - 1);
      ReserveOneCounted(m, first + n - 1);
      assert m.reserved <= m.used by { CountedMeans(m); }
      ReserveOneAdds(m, first + n - 1);
      OneMore(s.span, first, n);
    }
  }

  lemma CountedMeans(s: State)
    requires Counted(s)
    ensures s.reserved <= s.used
  {
  }

  lemma NoneYet(span: nat, first: nat)
    ensures Span(first, 0) * Upto(span) == {}
  {
  }

  lemma OneMore(span: nat, first: nat, n: nat)
    requires n > 0
    ensures Span(first, n) * Upto(span) == (Span(first, n - 1) * Upto(span)) + Existing(span, first + n - 1)
  {
  }

  /** `reserve_range` reserves exactly the pages of the range that exist. */
  lemma ReserveKeeps(s: State, start: nat, length: nat)
    requires Inv(s)
    ensures var s' := Reserve(s, start, length); var ps := Span(start / PAGE, RangePages(start, length)) * Upto(s.span);
            Inv(s') && s'.reserved == s.reserved + ps && s'.used == s.used + ps && s'.span == s.span
            && s'.inUse == s.inUse
  {
    hide FreePages, ReservePages;
    ReservePagesKeeps(s, start / PAGE, RangePages(start, length));
  }

  /** Page by page: a page is reserved after `reserve_range` if it was before, or exists
      and has a byte of the range (or is the page an empty range starts inside). */
  lemma ReservedPage(s: State, start: nat, length: nat, p: nat)
    requires Inv(s)
    ensures p in Reserve(s, start, length).reserved <==>
            || p in s.reserved
            || (p < s.span && (Overlaps(p, start, length) || (length == 0 && start % 4096 != 0 && p == start / 4096)))
  {
    hide Reserve, RangePages, Inv;
    ReserveKeeps(s, start, length);
    ReservesOverlap(start, length, p);
  }

  // ----- Whole runs -------------------------------------------------------

  datatype Event = Allocate | Release(addr: nat) | Protect(start: nat, length: nat)

  function Next(s: State, e: Event): State
    requires s.hint <= s.span
  {
    match e
    case Allocate => Alloc(s).0
    case Release(addr) => Free(s, addr)
    case Protect(start, length) => Reserve(s, start, length)
  }

  lemma NextKeeps(s: State, e: Event)
    requires Inv(s)
    ensures Inv(Next(s, e)) && Next(s, e).span == s.span
    ensures s.reserved <= Next(s, e).reserved
  {
    hide Alloc, Free, Reserve, Inv;
    assert s.hint <= s.span by { HintInSpan(s); }
    match e
    case Allocate => AllocIsLowest(s);
    case Release(addr) => FreeKeeps(s, addr);
    case Protect(start, length) => ReserveKeeps(s, start, length);
  }

  /** `s` runs through `es`, whoever releases what. */
  ghost predicate AnyRun(s: State, es: seq<Event>, s': State)
    decreases |es|
  {
    if es == [] then s' == s else s.hint <= s.span && AnyRun(Next(s, es[0]), es[1..], s')
  }

  /** Over every run, releases of pages nobody holds included: the invariant holds and
      reserved pages stay reserved. */
  lemma {:induction false} AnyRunKeeps(s: State, es: seq<Event>, s': State)
    requires Inv(s) && AnyRun(s, es, s')
    ensures Inv(s') && s.reserved <= s'.reserved && s'.span == s.span
    decreases |es|
  {
    hide Inv, Next;
    if es != [] {
      NextKeeps(s, es[0]);
      AnyRunKeeps(Next(s, es[0]), es[1..], s');
    }
  }

  lemma HintInSpan(s: State)
    requires Inv(s)
    ensures s.hint <= s.span
  {
  }

  /** The pages callers hold: handed out and not taken back since. */
  function Held(s: State, held: set<nat>, e: Event): set<nat>
    requires s.hint <= s.span
  {
    match e
    case Allocate => if Alloc(s).1 == 0 then held else held + {Alloc(s).1 / PAGE}
    case Release(addr) => if Freeable(s, addr) then held - {addr / PAGE} else held
    case Protect(_, _) => held
  }

  /** `s` and the held pages run through `es`, never releasing a page nobody holds. */
  ghost predicate Runs(s: State, held: set<nat>, es: seq<Event>, s': State, held': set<nat>)
    decreases |es|
  {
    if es == [] then s == s' && held == held' else
    && s.hint <= s.span
    && (es[0].Release? && Freeable(s, es[0].addr) ==> es[0].addr / PAGE in held)
    && Runs(Next(s, es[0]), Held(s, held, es[0]), es[1..], s', held')
  }

  /** Held pages are used, and the counter counts them. */
  ghost predicate Owned(s: State, held: set<nat>) { Inv(s) && held <= s.used && s.inUse == |held| }

  lemma StepOwned(s: State, held: set<nat>, e: Event)
    requires Owned(s, held) && (e.Release? && Freeable(s, e.addr) ==> e.addr / PAGE in held)
    ensures Owned(Next(s, e), Held(s, held, e))
    ensures FreePages(Next(s, e)) + Held(s, held, e) <= FreePages(s) + held
    ensures e.Allocate? && Alloc(s).1 != 0 ==>
              Alloc(s).1 % PAGE == 0 && Alloc(s).1 / PAGE !in held && Alloc(s).1 / PAGE !in s.reserved
  {
    hide Owned, Alloc, Free, Reserve, FreePages, Freeable;
    assert s.hint <= s.span by { OwnedInv(s, held); HintInSpan(s); }
    match e
    case Allocate => AllocOwned(s, held);
    case Release(addr) => ReleaseOwned(s, held, addr);
    case Protect(start, length) => ProtectOwned(s, held, start, length);
  }

  lemma AllocOwned(s: State, held: set<nat>)
    requires Owned(s, held)
    ensures var (s', addr) := Alloc(s); var held' := if addr == 0 then held else held + {addr / PAGE};
            && Owned(s', held') && FreePages(s') + held' <= FreePages(s) + held
            && (addr != 0 ==> addr % PAGE == 0 && addr / PAGE !in held && addr / PAGE !in s.reserved)
  {
    hide Alloc, FirstFree, Inv;
    HintInSpan(s);
    AllocIsLowest(s);
    var i := FirstFree(s, 0);
    if i < s.span {
      AllocTakes(s);
      DivIs(Alloc(s).1, PAGE, i, 0);
      TakenCount(s, i);
      assert FreePages(Take(s, i)) == FreePages(s.(used := s.used + {i}));
      assert |held + {i}| == |held| + 1;
    } else {
      AllocFails(s);
    }
  }

  lemma ReleaseOwned(s: State, held: set<nat>, addr: nat)
    requires Owned(s, held) && (Freeable(s, addr) ==> addr / PAGE in held)
    ensures var held' := if Freeable(s, addr) then held - {addr / PAGE} else held;
            Owned(Free(s, addr), held') && FreePages(Free(s, addr)) + held' <= FreePages(s) + held
  {
    FreeKeeps(s, addr);
  }

  lemma ProtectOwned(s: State, held: set<nat>, start: nat, length: nat)
    requires Owned(s, held)
    ensures var s' := Reserve(s, start, length); Owned(s', held) && FreePages(s') + held <= FreePages(s) + held
  {
    hide Reserve;
    ReserveKeeps(s, start, length);
  }

  lemma AllocTakes(s: State)
    requires Inv(s) && FirstFree(s, 0) < s.span
    ensures Alloc(s) == (Take(s, FirstFree(s, 0)), FirstFree(s, 0) * PAGE)
  {
    assert FirstFree(s, s.hint) == FirstFree(s, 0);
  }

  lemma AllocFails(s: State)
    requires Inv(s) && FreePages(s) == {}
    ensures Alloc(s) == (s.(hint := 0), 0)
  {
    var s1 := s.(hint := 0);
    forall j: nat | j < s.span ensures j in s.used { assert j !in FreePages(s); }
  }

  /** Over any run in which callers release only what they hold: the invariant holds, no
      reserved page becomes unreserved, the number of held pages is the counter, and only
      pages that were free or held at the start are ever free or held. */
  lemma {:induction false} RunOwned(s: State, held: set<nat>, es: seq<Event>, s': State, held': set<nat>)
    requires Owned(s, held) && Runs(s, held, es, s', held')
    ensures Owned(s', held') && s.reserved <= s'.reserved && s'.span == s.span
    ensures |s'.used| + s'.free == s'.span && FreePages(s') + held' <= FreePages(s) + held
    decreases |es|
  {
    if es == [] {
      UsedAndFree(s);
    } else {
      hide Owned, Alloc, Free, Reserve, FreePages;
      assert Inv(s) by { OwnedInv(s, held); }
      StepOwned(s, held, es[0]);
      NextKeeps(s, es[0]);
      RunOwned(Next(s, es[0]), Held(s, held, es[0]), es[1..], s', held');
    }
  }

  lemma OwnedInv(s: State, held: set<nat>)
    requires Owned(s, held)
    ensures Inv(s)
  {
  }

  lemma UsedAndFree(s: State)
    requires Inv(s)
    ensures |s.used| + s.free == s.span
  {
    SpanSize(0, s.span);
    assert Upto(s.span) == s.used + FreePages(s);
  }

  /** Across a run, an allocation never hands out a page that is reserved or that some
      caller still holds. */
  lemma PagesAreExclusive(s: State, held: set<nat>, es: seq<Event>, s': State, held': set<nat>)
    requires Owned(s, held) && Runs(s, held, es, s', held')
    ensures s'.hint <= s'.span
    ensures var addr := Alloc(s').1;
            addr != 0 ==>
              && addr % PAGE == 0 && addr / PAGE !in held' && addr / PAGE !in s'.reserved && addr / PAGE !in s.reserved
              && addr / PAGE in FreePages(s) + held
  {
    hide FreePages, Alloc;
    RunOwned(s, held, es, s', held');
    StepOwned(s', held', Allocate);
    assert s'.hint <= s'.span by { OwnedInv(s', held'); HintInSpan(s'); }
    var addr := Alloc(s').1;
    if addr != 0 { assert addr / PAGE in Held(s', held', Allocate); }
  }

  /** The caller releases nothing, or a page it holds, or something that is rejected. */
  predicate Fair(s: State, held: set<nat>, e: Event) {
    e.Release? && Freeable(s, e.addr) ==> e.addr / PAGE in held
  }

  /** A step keeps the books, that the counter counts the held pages and all of them are
      used, if and only if it does not release a page nobody holds. */
  lemma OwnedIffFair(s: State, held: set<nat>, e: Event)
    requires Owned(s, held)
    ensures Owned(Next(s, e), Held(s, held, e)) <==> Fair(s, held, e)
  {
    if Fair(s, held, e) {
      StepOwned(s, held, e);
    } else {
      assert held - {e.addr / PAGE} == held;
    }
  }

  ghost predicate AlwaysOwned(s: State, held: set<nat>, es: seq<Event>)
    decreases |es|
  {
    Owned(s, held) && (es == [] || AlwaysOwned(Next(s, es[0]), Held(s, held, es[0]), es[1..]))
  }

  predicate AlwaysFair(s: State, held: set<nat>, es: seq<Event>)
    requires s.hint <= s.span
    decreases |es|
  {
    es == [] || (Fair(s, held, es[0]) &&
                 var s1 := Next(s, es[0]); s1.hint <= s1.span && AlwaysFair(s1, Held(s, held, es[0]), es[1..]))
  }

  /** So over whole runs: the books are right in every state exactly when every release is
      of a held page. */
  lemma {:induction false} AlwaysOwnedIffFair(s: State, held: set<nat>, es: seq<Event>)
    requires Owned(s, held)
    ensures AlwaysOwned(s, held, es) <==> AlwaysFair(s, held, es)
    decreases |es|
  {
    if es != [] {
      hide Owned, Next, Held, Fair;
      assert Inv(s) by { OwnedInv(s, held); }
      OwnedIffFair(s, held, es[0]);
      NextKeeps(s, es[0]);
      if Fair(s, held, es[0]) { AlwaysOwnedIffFair(Next(s, es[0]), Held(s, held, es[0]), es[1..]); }
      else { AlwaysOwnedNow(Next(s, es[0]), Held(s, held, es[0]), es[1..]); }
    }
  }

  lemma AlwaysOwnedNow(s: State, held: set<nat>, es: seq<Event>)
    ensures AlwaysOwned(s, held, es) ==> Owned(s, held)
  {
  }

  /** Releasing a page nobody was given is accepted if it is used and not reserved, and
      the next allocation can hand it out. */
  lemma StrayReleaseIsAccepted()
    ensures var s := State(3, {0, 1, 2}, {0}, 0, 0, 0);
            && Owned(s, {}) && !Fair(s, {}, Release(PAGE)) && Alloc(s).1 == 0
            && Alloc(Free(s, PAGE)).1 == PAGE && Free(s, PAGE).inUse == -1
  {
    var s := State(3, {0, 1, 2}, {0}, 0, 0, 0);
    assert FreePages(s) == {};
    AllocIsLowest(s);
    var s1 := Free(s, PAGE);
    assert PAGE / PAGE == 1 && PAGE % PAGE == 0;
    assert s1.used == {0, 2};
    assert FirstFree(s1, 0) == 1;
  }

  // ----- Boot -------------------------------------------------------------

  /** One entry of the firmware's memory map. */
  datatype Descriptor = Descriptor(kind: nat, start: nat, pages: nat) {
    predicate Conventional() { kind == 7 }

    /** The allowlist of memory the bitmaps span. */
    predicate Real() { 1 <= kind <= 7 || kind == 9 || kind == 10 }

    function End(): nat { start + pages * PAGE }

    ghost function Pages(): set<nat> { if Conventional() then Span(start / PAGE, pages) else {} }
  }

  function Highest(ds: seq<Descriptor>): (h: nat)
    ensures forall k :: 0 <= k < |ds| && ds[k].Real() ==> ds[k].End() <= h
    ensures h == 0 || exists k :: 0 <= k < |ds| && ds[k].Real() && ds[k].End() == h
  {
    if ds == [] then 0 else
    var h, d := Highest(ds[..|ds| - 1]), ds[|ds| - 1];
    if d.Real() && d.End() > h then d.End() else h
  }

  function ClearPages(s: State, first: nat, n: nat): State {
    if n == 0 then s else
    var s1 := ClearPages(s, first, n - 1);
    s1.(used := s1.used - {first + n - 1}, free := s1.free + 1)
  }

  function ClearAll(s: State, ds: seq<Descriptor>): State {
    if ds == [] then s else
    var s1, d := ClearAll(s, ds[..|ds| - 1]), ds[|ds| - 1];
    if d.Conventional() then ClearPages(s1, d.start / PAGE, d.pages) else s1
  }

  /** Everything used, then the conventional pages cleared. */
  ghost function Booted(ds: seq<Descriptor>): State {
    var span := Highest(ds) / PAGE;
    ClearAll(State(span, Upto(span), {}, 0, 0, 0), ds)
  }

  ghost function AllPages(ds: seq<Descriptor>): set<nat> {
    if ds == [] then {} else AllPages(ds[..|ds| - 1]) + ds[|ds| - 1].Pages()
  }

  /** No page is in two conventional descriptors. */
  ghost predicate Disjoint(ds: seq<Descriptor>) {
    forall i, k :: 0 <= i < k < |ds| ==> ds[i].Pages() !! ds[k].Pages()
  }

  lemma {:induction false} ClearPagesIs(s: State, first: nat, n: nat)
    ensures ClearPages(s, first, n) == s.(used := s.used - Span(first, n), free := s.free + n)
  {
    if n > 0 {
      ClearPagesIs(s, first, n - 1);
      assert s.used - Span(first, n) == s.used - Span(first, n - 1) - {first + n - 1};
    }
  }

  lemma UnionSize(a: set<nat>, b: set<nat>)
    ensures |a + b| + |a * b| == |a| + |b|
  {
    assert a + b == a + (b - a);
    assert b == (b - a) + (a * b);
  }

  /** The counter after clearing, against the set of pages cleared. */
  lemma {:induction false} ClearAllCounts(s: State, ds: seq<Descriptor>)
    requires s.free == 0
    ensures var s' := ClearAll(s, ds);
            && s' == s.(used := s.used - AllPages(ds), free := s'.free)
            && s'.free >= |AllPages(ds)| && (s'.free == |AllPages(ds)| <==> Disjoint(ds))
  {
    if ds != [] {
      hide ClearPages, Descriptor.Pages;
      var front, d := ds[..|ds| - 1], ds[|ds| - 1];
      ClearAllCounts(s, front);
      PagesSize(d);
      ClearPagesIs(ClearAll(s, front), d.start / PAGE, d.pages);
      UnionSize(AllPages(front), d.Pages());
      DisjointSnoc(ds);
      assert s.used - AllPages(front) - d.Pages() == s.used - AllPages(ds);
    }
  }

  lemma PagesSize(d: Descriptor)
    ensures d.Conventional() ==> d.Pages() == Span(d.start / PAGE, d.pages) && |d.Pages()| == d.pages
    ensures !d.Conventional() ==> d.Pages() == {}
  {
    SpanSize(d.start / PAGE, d.pages);
  }

  lemma {:induction false} InAllPages(ds: seq<Descriptor>, p: nat)
    ensures p in AllPages(ds) <==> exists k :: 0 <= k < |ds| && p in ds[k].Pages()
  {
    if ds != [] {
      hide Descriptor.Pages;
      var front := ds[..|ds| - 1];
      InAllPages(front, p);
      if p in AllPages(front) {
        var k :| 0 <= k < |front| && p in front[k].Pages();
        assert p in ds[k].Pages();
      }
      if k :| 0 <= k < |ds| && p in ds[k].Pages() && k < |front| {
        assert p in front[k].Pages();
      }
    }
  }

  lemma DisjointSnoc(ds: seq<Descriptor>)
    requires ds != []
    ensures var front, d := ds[..|ds| - 1], ds[|ds| - 1];
            Disjoint(ds) <==> Disjoint(front) && |AllPages(front) * d.Pages()| == 0
  {
    hide Descriptor.Pages, AllPages;
    var front, d := ds[..|ds| - 1], ds[|ds| - 1];
    if Disjoint(ds) {
      forall p | p in AllPages(front) ensures p !in d.Pages() {
        InAllPages(front, p);
        var k :| 0 <= k < |front| && p in front[k].Pages();
        assert ds[k].Pages() !! ds[|front|].Pages();
      }
      assert forall i, k :: 0 <= i < k < |front| ==> front[i] == ds[i] && front[k] == ds[k];
      assert AllPages(front) * d.Pages() == {};
    }
    if Disjoint(front) && |AllPages(front) * d.Pages()| == 0 {
      forall i, k | 0 <= i < k < |ds| ensures ds[i].Pages() !! ds[k].Pages() {
        if k == |front| {
          forall p | p in ds[i].Pages() ensures p !in d.Pages() {
            assert p in front[i].Pages();
            InAllPages(front, p);
            assert p !in AllPages(front) * d.Pages();
          }
        } else {
          assert front[i].Pages() !! front[k].Pages();
        }
      }
    }
  }

  /** Conventional pages lie inside the span. */
  lemma PagesInSpan(ds: seq<Descriptor>)
    ensures AllPages(ds) <= Upto(Highest(ds) / PAGE)
  {
    forall p | p in AllPages(ds) ensures p in Upto(Highest(ds) / PAGE) {
      InAllPages(ds, p);
      var k :| 0 <= k < |ds| && p in ds[k].Pages();
      hide AllPages, Highest, Disjoint;
      var d, h := ds[k], Highest(ds);
      assert d.End() <= h;
      assert p < d.start / PAGE + d.pages;
      assert p < h / PAGE;
    }
  }

  /** After boot the free pages are the conventional ones, and `free_pages` is their
      number if and only if no two conventional descriptors overlap. */
  lemma BootCountExactIff(ds: seq<Descriptor>)
    ensures var s := Booted(ds);
            && FreePages(s) == AllPages(ds) && s.reserved == {} && s.hint == 0 && s.inUse == 0
            && s.span == Highest(ds) / PAGE && s.used <= Upto(s.span)
            && (s.free == |FreePages(s)| <==> Disjoint(ds))
  {
    hide AllPages, Highest, Disjoint, ClearAll;
    var span := Highest(ds) / PAGE;
    ClearAllCounts(State(span, Upto(span), {}, 0, 0, 0), ds);
    PagesInSpan(ds);
    assert FreePages(Booted(ds)) == AllPages(ds);
  }

  /** The firmware's numbers for memory: conventional memory is 7, and 8 (unusable memory),
      0 and everything above 10 is not memory at all. */
  const MEMORY: set<nat> := {1, 2, 3, 4, 5, 6, 7, 9, 10}

  /** A page is free after boot exactly when it is in a descriptor of conventional memory. */
  lemma FreeAtBoot(ds: seq<Descriptor>, p: nat)
    ensures p in FreePages(Booted(ds)) <==>
            exists k :: 0 <= k < |ds| && ds[k].kind == 7 && ds[k].start / 4096 <= p < ds[k].start / 4096 + ds[k].pages
  {
    hide Booted, FreePages;
    BootCountExactIff(ds);
    InAllPages(ds, p);
    forall k | 0 <= k < |ds|
      ensures p in ds[k].Pages() <==> ds[k].kind == 7 && ds[k].start / 4096 <= p < ds[k].start / 4096 + ds[k].pages
    {
    }
  }

  /** The bitmaps reach to the end of the highest memory, and no further. */
  lemma SpanAtBoot(ds: seq<Descriptor>)
    ensures forall k :: 0 <= k < |ds| && ds[k].kind in MEMORY ==> ds[k].start + ds[k].pages * 4096 < (Booted(ds).span + 1) * 4096
    ensures Booted(ds).span == 0 || exists k ::
              0 <= k < |ds| && ds[k].kind in MEMORY && (ds[k].start + ds[k].pages * 4096) / 4096 == Booted(ds).span
  {
    hide Booted, Highest;
    BootCountExactIff(ds);
    var h := Highest(ds);
    forall k | 0 <= k < |ds| ensures ds[k].Real() <==> ds[k].kind in MEMORY {
      MemoryKinds(ds[k]);
    }
    if h > 0 {
      var k :| 0 <= k < |ds| && ds[k].Real() && ds[k].End() == h;
      assert ds[k].kind in MEMORY;
    }
  }

  lemma MemoryKinds(d: Descriptor)
    ensures d.Real() <==> d.kind in MEMORY
  {
  }

  /** Two descriptors of the same page: it is counted twice. */
  lemma OverlapIsMiscounted()
    ensures var ds := [Descriptor(7, 0x1000, 1), Descriptor(7, 0x1000, 1)];
            !Disjoint(ds) && Booted(ds).free != |FreePages(Booted(ds))|
  {
    var d := Descriptor(7, 0x1000, 1);
    var ds := [d, d];
    BootCountExactIff(ds);
    hide Booted, FreePages;
    assert 1 in d.Pages();
    assert 1 in ds[0].Pages() && 1 in ds[1].Pages();
  }

  /** Once page 0 is reserved, the invariant holds and nobody holds anything. */
  lemma BootIsFine(ds: seq<Descriptor>)
    requires Disjoint(ds)
    ensures Owned(Reserve(Booted(ds), 0, PAGE), {})
  {
    BootCountExactIff(ds);
    var s := Booted(ds);
    assert RangePages(0, PAGE) == 1;
    ReservePagesKeeps(s, 0, 1);
    assert 0 in Span(0, 1);
    hide Booted, Disjoint, FreePages, ReservePages;
  }

  /** From boot on, whatever the callers do: page 0 and every page ever reserved stays
      reserved, and no allocation returns one. */
  lemma ReservedForGood(ds: seq<Descriptor>, es: seq<Event>, s: State, es': seq<Event>, s': State)
    requires Disjoint(ds) && AnyRun(Reserve(Booted(ds), 0, PAGE), es, s) && AnyRun(s, es', s')
    ensures Inv(s') && s.reserved <= s'.reserved && (s'.span > 0 ==> 0 in s'.reserved)
    ensures s'.hint <= s'.span && (Alloc(s').1 != 0 ==> Alloc(s').1 / PAGE !in s.reserved)
  {
    hide Booted, Disjoint, Reserve, AnyRun, Alloc, FirstFree;
    BootIsFine(ds);
    AnyRunKeeps(Reserve(Booted(ds), 0, PAGE), es, s);
    AnyRunKeeps(s, es', s');
    AllocIsLowest(s');
    var i := FirstFree(s', 0);
    if i < s'.span { DivIs(i * PAGE, PAGE, i, 0); } else { AllocFails(s'); }
  }

  // ----- The bitmaps ------------------------------------------------------

  ghost function Bits(bitmap: seq<bv8>, n: nat): (ps: set<nat>)
    requires n <= 8 * |bitmap|
    ensures forall i: nat :: i in ps <==> i < n && Bitmap.Test(bitmap, i)
  {
    if n == 0 then {} else
    Bits(bitmap, n - 1) + if Bitmap.Test(bitmap, n - 1) then {n - 1} else {}
  }

  lemma BitsWith(bitmap: seq<bv8>, n: nat, i: nat)
    requires n <= 8 * |bitmap| && i < n
    ensures Bits(Bitmap.With(bitmap, i), n) == Bits(bitmap, n) + {i}
  {
    hide Bits, Bitmap.With, Bitmap.Test;
    forall j: nat ensures j in Bits(Bitmap.With(bitmap, i), n) <==> j in Bits(bitmap, n) + {i} {
      if j < n { Bitmap.SetOne(bitmap, i, j); }
    }
  }

  lemma BitsWithout(bitmap: seq<bv8>, n: nat, i: nat)
    requires n <= 8 * |bitmap| && i < n
    ensures Bits(Bitmap.Without(bitmap, i), n) == Bits(bitmap, n) - {i}
  {
    hide Bits, Bitmap.Without, Bitmap.Test;
    forall j: nat ensures j in Bits(Bitmap.Without(bitmap, i), n) <==> j in Bits(bitmap, n) - {i} {
      if j < n { Bitmap.ClearOne(bitmap, i, j); }
    }
  }

  lemma FreshBits(ones: seq<bv8>, zeros: seq<bv8>, n: nat)
    requires n <= 8 * |ones| && |zeros| == |ones|
    requires forall k :: 0 <= k < |ones| ==> ones[k] == 0xFF && zeros[k] == 0x00
    ensures Bits(ones, n) == Upto(n) && Bits(zeros, n) == {}
  {
    hide Bits;
    forall j: nat | j < n ensures Bitmap.Test(ones, j) && !Bitmap.Test(zeros, j) {
      FullByte(j % 8);
    }
  }

  lemma FullByte(k: nat)
    requires k < 8
    ensures Bitmap.Bit(0xFF, k) && !Bitmap.Bit(0x00, k)
  {
  }

  // ----- The code ---------------------------------------------------------

  class PageAllocator {
    const usedBitmap: array<bv8>
    const reservedBitmap: array<bv8>
    const span: nat
    var hint: nat
    var free: int
    var inUse: int

    ghost predicate Valid()
      reads this
    {
      usedBitmap != reservedBitmap && usedBitmap.Length == reservedBitmap.Length
      && span <= 8 * usedBitmap.Length && hint <= span
    }

    ghost function View(): State
      reads this, usedBitmap, reservedBitmap
      requires Valid()
    {
      State(span, Bits(usedBitmap[..], span), Bits(reservedBitmap[..], span), hint, free, inUse)
    }

    /** `alloc_page_locked`; the page is not cleared in this model. */
    method AllocPage() returns (addr: nat)
      requires Valid()
      modifies this, usedBitmap
      ensures Valid() && (View(), addr) == Alloc(old(View()))
      decreases hint
    {
      hide Bits, Bitmap.With, FirstFree;
      ghost var s := View();
      var i := hint;
      while i < span
        invariant Valid() && View() == s && hint <= i <= span && FirstFree(s, hint) == FirstFree(s, i)
      {
        NextFree(s, i);
        if !Bitmap.Test(usedBitmap[..], i) {
          BitsWith(usedBitmap[..], span, i);
          Bitmap.Set(usedBitmap, i);
          free := free - 1;
          inUse := inUse + 1;
          hint := i;
          return i * PAGE;
        }
        i := i + 1;
      }
      if hint > 0 {
        hint := 0;
        addr := AllocPage();
        return;
      }
      return 0;
    }

    /** `free_page_locked`. */
    method FreePage(addr: nat)
      requires Valid()
      modifies this, usedBitmap
      ensures Valid() && View() == Free(old(View()), addr)
    {
      hide Bits, Bitmap.Without;
      if addr == 0 { return; }
      if addr % PAGE != 0 { return; }
      var page := addr / PAGE;
      if page >= span { return; }
      if Bitmap.Test(reservedBitmap[..], page) { return; }
      if !Bitmap.Test(usedBitmap[..], page) { return; }
      BitsWithout(usedBitmap[..], span, page);
      Bitmap.Clear(usedBitmap, page);
      free := free + 1;
      inUse := inUse - 1;
      if page < hint { hint := page; }
    }

    method ReservePage(i: nat)
      requires Valid()
      modifies this, usedBitmap, reservedBitmap
      ensures Valid() && View() == ReserveOne(old(View()), i)
    {
      hide Bits, Bitmap.With;
      if i >= span { return; }
      if !Bitmap.Test(reservedBitmap[..], i) {
        BitsWith(reservedBitmap[..], span, i);
        Bitmap.Set(reservedBitmap, i);
        if !Bitmap.Test(usedBitmap[..], i) {
          BitsWith(usedBitmap[..], span, i);
          Bitmap.Set(usedBitmap, i);
          free := free - 1;
        }
      }
    }

    /** `reserve_range`. */
    method ReserveRange(start: nat, length: nat)
      requires Valid()
      modifies this, usedBitmap, reservedBitmap
      ensures Valid() && View() == Reserve(old(View()), start, length)
    {
      hide Bits, ReserveOne;
      var first, pages := start / PAGE, RangePages(start, length);
      for p := 0 to pages
        invariant Valid() && View() == ReservePages(old(View()), first, p)
      {
        ReservePage(first + p);
      }
    }

    method ClearRange(first: nat, n: nat)
      requires Valid() && first + n <= span
      modifies this, usedBitmap
      ensures Valid() && View() == ClearPages(old(View()), first, n)
    {
      hide Bits, Bitmap.Without;
      for p := 0 to n
        invariant Valid() && View() == ClearPages(old(View()), first, p)
      {
        BitsWithout(usedBitmap[..], span, first + p);
        Bitmap.Clear(usedBitmap, first + p);
        free := free + 1;
      }
    }

    /** The bitmap-filling part of `init`, up to reserving page 0. */
    constructor (ds: seq<Descriptor>)
      ensures Valid() && fresh(usedBitmap) && fresh(reservedBitmap)
      ensures View() == Reserve(Booted(ds), 0, PAGE)
    {
      var top := FindHighest(ds);
      var n := top / PAGE;
      var size := n / 8;
      if n % 8 != 0 { size := size + 1; }
      span := n;
      usedBitmap := new bv8[size](_ => 0xFF);
      reservedBitmap := new bv8[size](_ => 0x00);
      hint, free, inUse := 0, 0, 0;
      new;
      hide Bits, ClearAll, ClearPages, Highest, Reserve;
      FreshBits(usedBitmap[..], reservedBitmap[..], span);
      ghost var s := View();
      assert ds[..0] == [];
      ClearNone(s);
      for k := 0 to |ds|
        invariant Valid() && View() == ClearAll(s, ds[..k])
      {
        var d := ds[k];
        ClearNext(s, ds, k);
        if d.Conventional() {
          RangeInSpan(ds, k);
          ClearRange(d.start / PAGE, d.pages);
        }
      }
      assert ds[..|ds|] == ds;
      ReserveRange(0, PAGE);
    }
  }

  lemma NextFree(s: State, i: nat)
    requires i < s.span
    ensures FirstFree(s, i) == if i in s.used then FirstFree(s, i + 1) else i
  {
  }

  lemma ClearNone(s: State)
    ensures ClearAll(s, []) == s
  {
  }

  lemma ClearNext(s: State, ds: seq<Descriptor>, k: nat)
    requires k < |ds|
    ensures ClearAll(s, ds[..k + 1]) ==
            if ds[k].Conventional() then ClearPages(ClearAll(s, ds[..k]), ds[k].start / PAGE, ds[k].pages)
            else ClearAll(s, ds[..k])
  {
    assert ds[..k + 1][..k] == ds[..k];
  }

  lemma RangeInSpan(ds: seq<Descriptor>, k: nat)
    requires k < |ds| && ds[k].Conventional()
    ensures ds[k].start / PAGE + ds[k].pages <= Highest(ds) / PAGE
  {
    hide Highest;
    assert ds[k].End() <= Highest(ds);
  }

  /** The first loop of `init`. */
  method FindHighest(ds: seq<Descriptor>) returns (h: nat)
    ensures h == Highest(ds)
  {
    h := 0;
    for i := 0 to |ds|
      invariant h == Highest(ds[..i])
    {
      assert ds[..i + 1][..i] == ds[..i];
      var end := ds[i].End();
      if ds[i].Real() && end > h { h := end; }
    }
    assert ds[..|ds|] == ds;
  }
}
