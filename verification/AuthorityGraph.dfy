/** The authority graph: a bounded table of grants, the operations that change it
    in place, and its two readings: `IsReachable` (may this principal touch this
    byte?) and `Projection` (the hardware entries its grants stand for). */
module AuthorityGraph {
  import opened Options
  import opened PageTables
  import opened Arith
  import opened Iommu

  datatype Principal = CpuProcess(id: nat) | PciDevice(bdf: Bdf)

  datatype Grant = Grant(principal: Principal, base: nat, len: nat, writable: bool, executable: bool)

  datatype Entry = Entry(page: nat, writable: bool, executable: bool)

  type Graph = seq<Option<Grant>>

  function PagesFor(len: nat): nat { (len + 4095) % WORD / PAGE }

  function End(x: Grant): nat { (x.base + PagesFor(x.len) * PAGE) % WORD }

  predicate Covers(x: Grant, addr: nat) { x.base <= addr < End(x) }

  predicate Holds(s: Option<Grant>, p: Principal, addr: nat) {
    s.Some? && s.value.principal == p && Covers(s.value, addr)
  }

  ghost predicate IsReachable(g: Graph, p: Principal, addr: nat) {
    exists i :: 0 <= i < |g| && Holds(g[i], p, addr)
  }

  predicate HasRoom(g: Graph) { exists i :: 0 <= i < |g| && g[i].None? }

  function FirstFree(g: Graph): (k: nat)
    ensures k <= |g| && (k < |g| <==> HasRoom(g))
    ensures k < |g| ==> g[k].None?
    ensures forall i :: 0 <= i < k ==> g[i].Some?
  {
    if g == [] || g[0].None? then 0 else
    var k := FirstFree(g[1..]);
    assert forall i :: 1 <= i < |g| ==> g[i] == g[1..][i - 1];
    assert k < |g[1..]| ==> g[1..][k] == g[k + 1];
    1 + k
  }

  function AddGrant(g: Graph, x: Grant): Graph {
    if HasRoom(g) then g[FirstFree(g) := Some(x)] else g
  }

  predicate Matches(s: Option<Grant>, p: Principal, base: nat) {
    s.Some? && s.value.principal == p && s.value.base == base
  }

  function DropGrants(g: Graph, p: Principal, base: nat): Graph {
    seq(|g|, i requires 0 <= i < |g| => if Matches(g[i], p, base) then None else g[i])
  }

  function CountMatches(g: Graph, p: Principal, base: nat): nat {
    if g == [] then 0
    else CountMatches(g[..|g| - 1], p, base) + if Matches(g[|g| - 1], p, base) then 1 else 0
  }

  function Entries(x: Grant): seq<Entry> {
    seq(PagesFor(x.len), k requires k >= 0 => Entry((x.base + k * PAGE) % WORD, x.writable, x.executable))
  }

  function SlotEntries(s: Option<Grant>, p: Principal): seq<Entry> {
    if s.Some? && s.value.principal == p then Entries(s.value) else []
  }

  /** Every entry of every grant of `p`, in table order. */
  function Projection(g: Graph, p: Principal): seq<Entry> {
    if g == [] then [] else Projection(g[..|g| - 1], p) + SlotEntries(g[|g| - 1], p)
  }

  /** What fits into an output of `cap` entries. */
  function Take(es: seq<Entry>, cap: nat): seq<Entry> {
    if |es| <= cap then es else es[..cap]
  }

  // ----- What the operations mean -----------------------------------------

  /** A grant adds exactly its own range to its own principal, if there is room. */
  lemma GrantReach(g: Graph, x: Grant, p: Principal, addr: nat)
    ensures IsReachable(AddGrant(g, x), p, addr) <==>
            IsReachable(g, p, addr) || (HasRoom(g) && x.principal == p && Covers(x, addr))
  {
    var g', k := AddGrant(g, x), FirstFree(g);
    if HasRoom(g) {
      if IsReachable(g, p, addr) {
        var i :| 0 <= i < |g| && Holds(g[i], p, addr);
        assert Holds(g'[i], p, addr);
      }
      if x.principal == p && Covers(x, addr) { assert Holds(g'[k], p, addr); }
      if IsReachable(g', p, addr) {
        var i :| 0 <= i < |g'| && Holds(g'[i], p, addr);
        assert i != k ==> Holds(g[i], p, addr);
      }
    }
  }

  /** A revocation takes away exactly the grants of that principal that start at `base`. */
  lemma RevokeReach(g: Graph, q: Principal, base: nat, p: Principal, addr: nat)
    ensures IsReachable(DropGrants(g, q, base), p, addr) <==>
            exists i :: 0 <= i < |g| && Holds(g[i], p, addr) && !(p == q && g[i].value.base == base)
    ensures p != q ==> (IsReachable(DropGrants(g, q, base), p, addr) <==> IsReachable(g, p, addr))
  {
    var g' := DropGrants(g, q, base);
    forall i | 0 <= i < |g|
      ensures Holds(g'[i], p, addr) <==> Holds(g[i], p, addr) && !(p == q && g[i].value.base == base)
    {
    }
  }

  // ----- In bytes ---------------------------------------------------------

  /** The address is one of the whole pages, counted from `base`, that the range begins. */
  predicate InPagesOf(x: Grant, addr: nat) {
    x.base <= addr && (addr - x.base) / 4096 * 4096 < x.len
  }

  /** The range's pages end below 2^64, so that the 64-bit sums are exact. */
  predicate FitsWord(x: Grant) {
    x.base + (x.len + 4095) / 4096 * 4096 < 0x1_0000_0000_0000_0000
  }

  lemma FitsExactly(x: Grant)
    requires FitsWord(x)
    ensures PagesFor(x.len) == (x.len + 4095) / 4096 && End(x) == x.base + (x.len + 4095) / 4096 * 4096
  {
    var n := (x.len + 4095) / 4096;
    DivIs(x.len + 4095, 4096, n, (x.len + 4095) % 4096);
    assert x.len + 4095 < WORD;
    DivIs(x.len + 4095, WORD, 0, x.len + 4095);
    DivIs(x.base + n * 4096, WORD, 0, x.base + n * 4096);
  }

  lemma CoversPages(x: Grant, addr: nat)
    requires FitsWord(x)
    ensures Covers(x, addr) <==> InPagesOf(x, addr)
    ensures x.base <= addr < x.base + x.len ==> InPagesOf(x, addr)
  {
    FitsExactly(x);
    hide PagesFor, End;
    var n := (x.len + 4095) / 4096;
    if x.base <= addr {
      var q := (addr - x.base) / 4096;
      assert q * 4096 < x.len <==> q < n;
      assert q < n <==> addr < x.base + n * 4096;
    }
  }

  /** After a grant the principal reaches what it reached before and every page of the
      range, its last one whole, and nothing more. */
  lemma GrantIsTheBytes(g: Graph, x: Grant, addr: nat)
    requires FitsWord(x) && HasRoom(g)
    ensures IsReachable(AddGrant(g, x), x.principal, addr) <==> IsReachable(g, x.principal, addr) || InPagesOf(x, addr)
    ensures x.base <= addr < x.base + x.len ==> IsReachable(AddGrant(g, x), x.principal, addr)
  {
    hide IsReachable, AddGrant, Covers, InPagesOf;
    GrantReach(g, x, x.principal, addr);
    CoversPages(x, addr);
  }

  /** A range of 64-bit numbers is covered whole if and only if it is empty or its pages
      end below 2^64. */
  lemma CoversRangeIff(x: Grant)
    requires x.base < 0x1_0000_0000_0000_0000 && x.len < 0x1_0000_0000_0000_0000
    ensures (forall addr: nat :: x.base <= addr < x.base + x.len ==> Covers(x, addr)) <==> x.len == 0 || FitsWord(x)
  {
    if FitsWord(x) {
      forall addr: nat | x.base <= addr < x.base + x.len ensures Covers(x, addr) { CoversPages(x, addr); }
    } else if x.len > 0 {
      assert !Covers(x, x.base) by { WrappedEnd(x); }
    }
  }

  lemma WrappedEnd(x: Grant)
    requires x.base < WORD && x.len < WORD && !FitsWord(x)
    ensures End(x) <= x.base
  {
    var n := (x.len + 4095) / 4096;
    assert n <= 0x10_0000_0000_0000;
    if x.len + 4095 < WORD {
      DivIs(x.len + 4095, WORD, 0, x.len + 4095);
      DivIs(x.base + n * 4096, WORD, 1, x.base + n * 4096 - WORD);
    } else {
      DivIs(x.len + 4095, WORD, 1, x.len + 4095 - WORD);
      DivIs(x.len + 4095 - WORD, 4096, 0, x.len + 4095 - WORD);
      DivIs(x.base, WORD, 0, x.base);
    }
  }

  /** The entry is for the `k`-th page of the grant, with the grant's own flags. */
  predicate Stands(e: Entry, x: Grant, k: nat) {
    k * 4096 < x.len && e.page == (x.base + k * 4096) % 0x1_0000_0000_0000_0000
    && e.writable == x.writable && e.executable == x.executable
  }

  ghost predicate StandsFor(e: Entry, s: Option<Grant>, p: Principal) {
    s.Some? && s.value.principal == p && exists k: nat :: Stands(e, s.value, k)
  }

  lemma SlotEntriesIff(s: Option<Grant>, p: Principal, e: Entry)
    requires s.Some? ==> s.value.len + 4095 < WORD
    ensures e in SlotEntries(s, p) <==> StandsFor(e, s, p)
  {
    if s.Some? && s.value.principal == p {
      var x := s.value;
      DivIs(x.len + 4095, WORD, 0, x.len + 4095);
      if k: nat :| Stands(e, x, k) {
        assert k < PagesFor(x.len);
        assert Entries(x)[k] == e;
      }
      if e in Entries(x) {
        var k :| 0 <= k < |Entries(x)| && Entries(x)[k] == e;
        assert Stands(e, x, k);
      }
    }
  }

  /** The projection of a principal holds, with the flags of the grant, one entry for each
      page of each of its grants and nothing else. */
  lemma {:induction false} ProjectedIff(g: Graph, p: Principal, e: Entry)
    requires forall i :: 0 <= i < |g| && g[i].Some? ==> g[i].value.len + 4095 < 0x1_0000_0000_0000_0000
    ensures e in Projection(g, p) <==> exists i :: 0 <= i < |g| && StandsFor(e, g[i], p)
  {
    if g != [] {
      hide StandsFor, SlotEntries;
      var init, last := g[..|g| - 1], g[|g| - 1];
      ProjectedIff(init, p, e);
      SlotEntriesIff(last, p, e);
      if i :| 0 <= i < |init| && StandsFor(e, init[i], p) { assert StandsFor(e, g[i], p); }
      if i :| 0 <= i < |g| && StandsFor(e, g[i], p) { assert i < |init| ==> StandsFor(e, init[i], p); }
    }
  }

  // ----- Against the hardware's pages --------------------------------------

  /** A grant whose pages the hardware can represent one for one. */
  predicate Mappable(x: Grant) { x.base % PAGE == 0 && x.base + x.len <= VA_LIMIT }

  lemma MappableEnd(x: Grant)
    requires Mappable(x)
    ensures x.base + PagesFor(x.len) * PAGE <= VA_LIMIT && End(x) == x.base + PagesFor(x.len) * PAGE
    ensures End(x) % PAGE == 0
  {
    var a, n := x.base / PAGE, (x.len + 4095) / PAGE;
    assert x.base == a * PAGE;
    DivIs(x.len + 4095, WORD, 0, x.len + 4095);
    assert (a + n) * PAGE <= x.base + x.len + 4095;
    assert (a + n) * PAGE <= VA_LIMIT;
    DivIs(x.base + n * PAGE, WORD, 0, x.base + n * PAGE);
    DivIs(x.base + n * PAGE, PAGE, a + n, 0);
  }

  /** Some entry is for the page of `addr`. */
  ghost predicate OnPage(es: seq<Entry>, addr: nat) {
    exists k :: 0 <= k < |es| && es[k].page / PAGE == addr / PAGE
  }

  ghost predicate AllMappable(es: seq<Entry>) {
    forall k :: 0 <= k < |es| ==> es[k].page < VA_LIMIT && es[k].page % PAGE == 0
  }

  lemma OnPageConcat(a: seq<Entry>, b: seq<Entry>, addr: nat)
    ensures OnPage(a + b, addr) <==> OnPage(a, addr) || OnPage(b, addr)
  {
    var ab := a + b;
    if k :| 0 <= k < |a| && a[k].page / PAGE == addr / PAGE { assert ab[k] == a[k]; }
    if k :| 0 <= k < |b| && b[k].page / PAGE == addr / PAGE { assert ab[|a| + k] == b[k]; }
    if k :| 0 <= k < |ab| && ab[k].page / PAGE == addr / PAGE {
      assert if k < |a| then a[k] == ab[k] else b[k - |a|] == ab[k];
    }
  }

  lemma ReachLast(g: Graph, p: Principal, addr: nat)
    requires g != []
    ensures IsReachable(g, p, addr) <==> IsReachable(g[..|g| - 1], p, addr) || Holds(g[|g| - 1], p, addr)
  {
    var init := g[..|g| - 1];
    if i :| 0 <= i < |init| && Holds(init[i], p, addr) { assert Holds(g[i], p, addr); }
    if i :| 0 <= i < |g| && Holds(g[i], p, addr) { assert i < |init| ==> Holds(init[i], p, addr); }
  }

  lemma EntriesCover(x: Grant, addr: nat)
    requires Mappable(x)
    ensures Covers(x, addr) <==> OnPage(Entries(x), addr)
    ensures AllMappable(Entries(x))
  {
    MappableEnd(x);
    var a, es := x.base / PAGE, Entries(x);
    assert x.base == a * PAGE;
    forall k | 0 <= k < |es| ensures es[k].page == (a + k) * PAGE && es[k].page / PAGE == a + k && es[k].page % PAGE == 0 {
      var p := x.base + k * PAGE;
      assert p == (a + k) * PAGE;
      DivIs(p, WORD, 0, p);
      DivIs(p, PAGE, a + k, 0);
    }
    if Covers(x, addr) {
      var k := addr / PAGE - a;
      assert addr / PAGE < a + |es|;
      assert es[k].page / PAGE == addr / PAGE;
    }
  }

  ghost predicate MappableFor(g: Graph, p: Principal) {
    forall i :: 0 <= i < |g| && g[i].Some? && g[i].value.principal == p ==> Mappable(g[i].value)
  }

  /** The projection of a table is its reachability: an address is reachable exactly
      when the projection holds its page. */
  lemma {:induction false} ProjectionIsReach(g: Graph, p: Principal, addr: nat)
    requires MappableFor(g, p)
    ensures IsReachable(g, p, addr) <==> OnPage(Projection(g, p), addr)
    ensures AllMappable(Projection(g, p))
  {
    if g != [] {
      var init, last := g[..|g| - 1], g[|g| - 1];
      ProjectionIsReach(init, p, addr);
      ReachLast(g, p, addr);
      OnPageConcat(Projection(init, p), SlotEntries(last, p), addr);
      if last.Some? && last.value.principal == p { EntriesCover(last.value, addr); }
    }
  }

  ghost function Matching(g: Graph, p: Principal, base: nat): set<nat> {
    set i: nat | i < |g| && g[i].Some? && g[i].value.principal == p && g[i].value.base == base
  }

  /** The number of grants that start at `base`, as the revocation reports it. */
  lemma {:induction false} CountIsSize(g: Graph, p: Principal, base: nat)
    ensures CountMatches(g, p, base) == |Matching(g, p, base)|
  {
    if g == [] {
      assert Matching(g, p, base) == {};
    } else {
      CountIsSize(g[..|g| - 1], p, base);
      MatchingLast(g, p, base);
      hide Matching;
    }
  }

  lemma MatchingLast(g: Graph, p: Principal, base: nat)
    requires g != []
    ensures var init, last := g[..|g| - 1], |g| - 1;
            && last !in Matching(init, p, base)
            && Matching(g, p, base) == if Matches(g[last], p, base) then Matching(init, p, base) + {last} else Matching(init, p, base)
  {
    var init := g[..|g| - 1];
    forall i: nat | i < |init| ensures i in Matching(g, p, base) <==> i in Matching(init, p, base) {
      assert init[i] == g[i];
    }
  }

  // ----- The operations on the table --------------------------------------

  predicate FirstEmpty(g: Graph, i: nat)
    requires i < |g|
  {
    g[i].None? && forall j :: 0 <= j < i ==> g[j].Some?
  }

  method GrantInto(graph: array<Option<Grant>>, x: Grant) returns (added: bool)
    modifies graph
    ensures graph[..] == AddGrant(old(graph[..]), x) && added == HasRoom(old(graph[..]))
    ensures if added then exists i :: 0 <= i < graph.Length && FirstEmpty(old(graph[..]), i) && graph[..] == old(graph[..])[i := Some(x)]
            else (forall i :: 0 <= i < graph.Length ==> graph[i] == old(graph[i]) && graph[i].Some?)
  {
    for i := 0 to graph.Length
      invariant graph[..] == old(graph[..])
      invariant forall k :: 0 <= k < i ==> graph[k].Some?
    {
      if graph[i].None? {
        assert FirstFree(graph[..]) == i by { assert old(graph[..])[i].None?; }
        graph[i] := Some(x);
        assert FirstEmpty(old(graph[..]), i);
        return true;
      }
    }
    return false;
  }

  method RevokeFrom(graph: array<Option<Grant>>, p: Principal, base: nat) returns (removed: nat)
    modifies graph
    ensures graph[..] == DropGrants(old(graph[..]), p, base) && removed == CountMatches(old(graph[..]), p, base)
    ensures removed == |Matching(old(graph[..]), p, base)|
    ensures forall i :: 0 <= i < graph.Length ==>
              graph[i] == match old(graph[i])
                          case None => None
                          case Some(x) => if x.principal == p && x.base == base then None else Some(x)
  {
    removed := 0;
    ghost var was := graph[..];
    for i := 0 to graph.Length
      invariant removed == CountMatches(was[..i], p, base)
      invariant forall k :: 0 <= k < i ==> graph[k] == DropGrants(was, p, base)[k]
      invariant forall k :: i <= k < graph.Length ==> graph[k] == was[k]
    {
      assert was[..i + 1][..i] == was[..i];
      if graph[i].Some? && graph[i].value.principal == p && graph[i].value.base == base {
        graph[i] := None;
        removed := removed + 1;
      }
    }
    assert was[..graph.Length] == was;
    CountIsSize(was, p, base);
  }

  lemma ProjectionNext(g: Graph, i: nat, p: Principal)
    requires i < |g|
    ensures Projection(g[..i + 1], p) == Projection(g[..i], p) + SlotEntries(g[i], p)
  {
    hide SlotEntries;
    assert g[..i + 1][..i] == g[..i];
  }

  /** Once the output is full, the rest of the projection does not matter. */
  lemma TakeFull(a: seq<Entry>, c: seq<Entry>, cap: nat)
    requires a <= c && |Take(a, cap)| == cap
    ensures Take(c, cap) == Take(a, cap)
  {
  }

  method ProjectInto(graph: array<Option<Grant>>, p: Principal, out: array<Entry>) returns (count: nat)
    modifies out
    ensures count == |Take(Projection(old(graph[..]), p), out.Length)|
    ensures out[..count] == Take(Projection(old(graph[..]), p), out.Length)
    ensures forall k :: count <= k < out.Length ==> out[k] == old(out[k])
  {
    hide Projection, Take, Entries;
    count := 0;
    var i := 0;
    ghost var g := graph[..];
    NothingProjected(p, out.Length);
    while i < graph.Length && count < out.Length
      invariant 0 <= i <= graph.Length && count <= out.Length && graph[..] == g
      invariant forall k :: count <= k < out.Length ==> out[k] == old(out[k])
      invariant out[..count] == Take(Projection(g[..i], p), out.Length)
    {
      ghost var before := Projection(g[..i], p);
      ProjectionNext(g, i, p);
      NotCut(before, out.Length);
      if graph[i].Some? && graph[i].value.principal == p {
        count := ProjectGrant(graph[i].value, out, count, before);
      } else {
        assert before + [] == before;
      }
      i := i + 1;
    }
    PrefixProjection(g, i, p);
    if count == out.Length { TakeFull(Projection(g[..i], p), Projection(g, p), out.Length); }
    if i == graph.Length { assert g[..i] == g; }
  }

  lemma NothingProjected(p: Principal, cap: nat)
    ensures Take(Projection([], p), cap) == []
  {
  }

  lemma NotCut(es: seq<Entry>, cap: nat)
    ensures |Take(es, cap)| < cap ==> Take(es, cap) == es
  {
  }

  /** The inner loop: one grant's pages, as many as still fit. */
  method ProjectGrant(x: Grant, out: array<Entry>, start: nat, ghost before: seq<Entry>) returns (count: nat)
    requires start < out.Length && out[..start] == before
    modifies out
    ensures start <= count <= out.Length && out[..count] == Take(before + Entries(x), out.Length)
    ensures forall k :: count <= k < out.Length ==> out[k] == old(out[k])
  {
    count := start;
    var pages, q := PagesFor(x.len), 0;
    while q < pages && count < out.Length
      invariant 0 <= q <= pages && count == start + q <= out.Length
      invariant out[..count] == before + Entries(x)[..q]
      invariant forall k :: count <= k < out.Length ==> out[k] == old(out[k])
    {
      out[count] := Entry((x.base + q * PAGE) % WORD, x.writable, x.executable);
      assert Entries(x)[..q + 1] == Entries(x)[..q] + [out[count]];
      count := count + 1;
      q := q + 1;
    }
    assert q == pages ==> Entries(x)[..q] == Entries(x);
    assert before + Entries(x)[..q] == (before + Entries(x))[..count];
  }

  lemma {:induction false} PrefixProjection(g: Graph, i: nat, p: Principal)
    requires i <= |g|
    ensures Projection(g[..i], p) <= Projection(g, p)
  {
    if i < |g| {
      PrefixProjection(g[..|g| - 1], i, p);
      assert g[..|g| - 1][..i] == g[..i];
    } else {
      assert g[..i] == g;
    }
  }

  method Reachable(graph: array<Option<Grant>>, p: Principal, addr: nat) returns (found: bool)
    ensures found <==> IsReachable(graph[..], p, addr)
  {
    for i := 0 to graph.Length
      invariant forall k :: 0 <= k < i ==> !Holds(graph[k], p, addr)
    {
      if graph[i].Some? && graph[i].value.principal == p {
        var x := graph[i].value;
        var end := (x.base + PagesFor(x.len) * PAGE) % WORD;
        if addr >= x.base && addr < end {
          assert Holds(graph[..][i], p, addr);
          return true;
        }
      }
    }
    return false;
  }
}
