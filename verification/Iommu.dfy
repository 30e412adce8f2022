/** The VT-d driver: one root table, one context table per bus, and a private
    set of second-level tables for every assignment.

    `Slot` and `Reaches` are the hardware's view and read only memory and the
    hardware's own translation cache; the driver's bookkeeping (`busContext`,
    `nextDomain`) is what the driver believes. */
module Iommu {
  import opened Options
  import opened PageTables
  import opened Arith

  const DOMAINS: nat := 0x1_0000               // domain ids are u16

  datatype Bdf = Bdf(bus: nat, device: nat, function_: nat)

  /** The three numbers are u8. */
  predicate IsBdf(b: Bdf) { b.bus < 256 && b.device < 256 && b.function_ < 256 }

  /** What PCI can address on one bus. */
  predicate OnBus(b: Bdf) { b.bus < 256 && b.device < 32 && b.function_ < 8 }

  /** Which entry of a context table the driver takes: `(device & 0x1F) << 3 | (function & 7)`. */
  function CtxIndex(b: Bdf): (i: nat)
    ensures i < 256
  {
    b.device % 32 * 8 + b.function_ % 8
  }

  datatype Range = Range(base: nat, len: nat)

  /** The u64 page addresses the assignment loop visits for one range. */
  function RangePages(r: Range): seq<nat> {
    seq((r.len + 4095) % WORD / PAGE, k requires k >= 0 => (r.base + k * PAGE) % WORD)
  }

  function PagesOf(ranges: seq<Range>): seq<nat> {
    if ranges == [] then [] else PagesOf(ranges[..|ranges| - 1]) + RangePages(ranges[|ranges| - 1])
  }

  /** `nextDomain` is the last id given out.  `iotlb` is the hardware's translation
      cache: domain id and page number to frame. */
  datatype State = State(tables: Tables, root: nat, busContext: seq<nat>, nextDomain: nat, iotlb: map<(nat, nat), nat>)

  // ----- The hardware's view ----------------------------------------------

  datatype Context = Context(root: nat, domain: nat)

  function Slot(m: Mem, rootTable: nat, bus: nat, i: nat): Option<Context>
    requires bus < 256 && i < 256
  {
    var e := Read(m, rootTable, 2 * bus);
    if !Present(e) then None else
    var low := Read(m, Frame(e), 2 * i);
    if !Present(low) then None else
    Some(Context(Frame(low), Read(m, Frame(e), 2 * i + 1) / 256 % DOMAINS))
  }

  /** Where the hardware looks for a requester: eight functions to a device. */
  function DevFn(b: Bdf): (i: nat)
    ensures i < 256
  {
    8 * (b.device % 32) + b.function_ % 8
  }

  function ContextOf(s: State, b: Bdf): Option<Context>
    requires IsBdf(b)
  {
    Slot(s.tables.mem, s.root, b.bus, DevFn(b))
  }

  /** A DMA of device `b` to `v` may land on physical byte `p`: through the tables
      or through a cached translation of the device's domain. */
  predicate Reaches(s: State, b: Bdf, v: nat, p: nat)
    requires IsBdf(b)
  {
    match ContextOf(s, b)
    case None => false
    case Some(c) =>
      || Walk(s.tables.mem, c.root, v) == Some(p)
      || ((c.domain, v / PAGE) in s.iotlb && p == s.iotlb[(c.domain, v / PAGE)] + v % PAGE)
  }

  // ----- The driver -------------------------------------------------------

  /** Identity-maps each address in turn. */
  function MapAll(t: Tables, root: nat, addrs: seq<nat>): Tables {
    if addrs == [] then t else
    var a := addrs[|addrs| - 1];
    Map4K(MapAll(t, root, addrs[..|addrs| - 1]), root, a, a)
  }

  /** The bus's context table, built and hooked into the root table on first use. */
  function WithContext(s: State, bus: nat): State
    requires |s.busContext| == 256 && bus < 256
  {
    if s.busContext[bus] != 0 then s else
    var (t, page) := Alloc(s.tables);
    s.(tables := t.(mem := Write(t.mem, s.root, 2 * bus, page + 1)), busContext := s.busContext[bus := page])
  }

  function Install(s: State, b: Bdf, pml4: nat): State
    requires |s.busContext| == 256 && IsBdf(b)
  {
    var d := (s.nextDomain + 1) % DOMAINS;
    var ctx := s.busContext[b.bus];
    var m := Write(s.tables.mem, ctx, 2 * CtxIndex(b), pml4 + 1);
    s.(tables := s.tables.(mem := Write(m, ctx, 2 * CtxIndex(b) + 1, 2 + d * 256)), nextDomain := d)
  }

  function Assign(s: State, b: Bdf, ranges: seq<Range>): State
    requires |s.busContext| == 256 && IsBdf(b)
  {
    var (t1, pml4) := Alloc(s.tables);
    Install(WithContext(s.(tables := MapAll(t1, pml4, PagesOf(ranges))), b.bus), b, pml4)
  }

  function DropDomain(tlb: map<(nat, nat), nat>, d: nat): map<(nat, nat), nat> {
    map k | k in tlb && k.0 != d :: tlb[k]
  }

  /** Clears the context entry and purges the domain's cached translations; second
      component: whether there was anything to revoke. */
  function Revoke(s: State, b: Bdf): (State, bool)
    requires |s.busContext| == 256 && IsBdf(b)
  {
    var ctx := s.busContext[b.bus];
    if ctx == 0 then (s, false) else
    var low := Read(s.tables.mem, ctx, 2 * CtxIndex(b));
    if !Present(low) then (s, false) else
    var d := Read(s.tables.mem, ctx, 2 * CtxIndex(b) + 1) / 256 % DOMAINS;
    var m := Write(Write(s.tables.mem, ctx, 2 * CtxIndex(b), 0), ctx, 2 * CtxIndex(b) + 1, 0);
    (s.(tables := s.tables.(mem := m), iotlb := DropDomain(s.iotlb, d)), true)
  }

  /** The hardware caches the translation of a DMA it has just performed. */
  function Dma(s: State, b: Bdf, v: nat): State
    requires IsBdf(b)
  {
    match ContextOf(s, b)
    case None => s
    case Some(c) =>
      match Walk(s.tables.mem, c.root, v)
      case None => s
      case Some(p) => s.(iotlb := s.iotlb[(c.domain, v / PAGE) := p / PAGE * PAGE])
  }

  /** The hardware may drop cached translations whenever it likes. */
  function Evict(s: State, keep: set<(nat, nat)>): State {
    s.(iotlb := map k | k in s.iotlb && k in keep :: s.iotlb[k])
  }

  // ----- Invariant --------------------------------------------------------

  ghost predicate BusOk(s: State, uses: Uses, bus: nat)
    requires |s.busContext| == 256 && bus < 256
  {
    var c := s.busContext[bus];
    var e := Read(s.tables.mem, s.root, 2 * bus);
    if c == 0 then !Present(e) else c in uses && uses[c] == ContextTable(bus) && e == c + 1
  }

  ghost predicate SlotFine(s: State, uses: Uses, bus: nat, i: nat)
    requires bus < 256 && i < 256
  {
    match Slot(s.tables.mem, s.root, bus, i)
    case None => true
    case Some(c) => IsRoot(uses, c.root) && 1 <= c.domain <= s.nextDomain
  }

  /** No two context entries share a domain id or a set of tables. */
  ghost predicate Apart(s: State, bus: nat, i: nat, bus': nat, i': nat)
    requires bus < 256 && i < 256 && bus' < 256 && i' < 256
  {
    var a, c := Slot(s.tables.mem, s.root, bus, i), Slot(s.tables.mem, s.root, bus', i');
    a.Some? && c.Some? ==> a.value.root != c.value.root && a.value.domain != c.value.domain
  }

  /** A cached translation of a live domain is what its tables say. */
  ghost predicate CacheFine(s: State, bus: nat, i: nat)
    requires bus < 256 && i < 256
  {
    match Slot(s.tables.mem, s.root, bus, i)
    case None => true
    case Some(c) =>
      forall v: nat :: v < VA_LIMIT && (c.domain, v / PAGE) in s.iotlb ==>
        Walk(s.tables.mem, c.root, v) == Some(s.iotlb[(c.domain, v / PAGE)] + v % PAGE)
  }

  ghost predicate Buses(s: State, uses: Uses)
    requires |s.busContext| == 256
  {
    forall bus | 0 <= bus < 256 :: BusOk(s, uses, bus)
  }

  ghost predicate Slots(s: State, uses: Uses) {
    forall bus, i | 0 <= bus < 256 && 0 <= i < 256 :: SlotFine(s, uses, bus, i)
  }

  ghost predicate AllApart(s: State) {
    forall bus, i, bus', i' | 0 <= bus < 256 && 0 <= i < 256 && 0 <= bus' < 256 && 0 <= i' < 256 ::
      (bus, i) != (bus', i') ==> Apart(s, bus, i, bus', i')
  }

  ghost predicate Cache(s: State) {
    && (forall bus, i | 0 <= bus < 256 && 0 <= i < 256 :: CacheFine(s, bus, i))
    && (forall k :: k in s.iotlb ==> k.0 <= s.nextDomain)
  }

  ghost predicate Good(s: State, uses: Uses) {
    && Inv(s.tables, uses)
    && |s.busContext| == 256 && s.nextDomain < DOMAINS
    && s.root in uses && uses[s.root] == RootTable
    && Buses(s, uses) && Slots(s, uses) && AllApart(s) && Cache(s)
  }

  /** The entry and all its translations are the same in both states. */
  ghost predicate SameEntry(s: State, s': State, bus: nat, i: nat)
    requires bus < 256 && i < 256
  {
    var c := Slot(s.tables.mem, s.root, bus, i);
    && Slot(s'.tables.mem, s'.root, bus, i) == c
    && (c.Some? ==> forall v: nat :: v < VA_LIMIT ==>
          Walk(s'.tables.mem, c.value.root, v) == Walk(s.tables.mem, c.value.root, v))
  }

  /** The entry is gone, or is the first of a new domain with unused tables. */
  ghost predicate Replaced(s: State, s': State, uses': Uses, bus: nat, i: nat)
    requires bus < 256 && i < 256
  {
    match Slot(s'.tables.mem, s'.root, bus, i)
    case None => true
    case Some(c) => c.domain == s.nextDomain + 1 == s'.nextDomain && IsRoot(uses', c.root) && Detached(s, c.root)
  }

  /** One step of the driver or of the cache replaces at most one entry. */
  ghost predicate Step(s: State, uses: Uses, s': State, uses': Uses, b0: nat, i0: nat)
    requires b0 < 256 && i0 < 256
  {
    && s'.root == s.root && |s'.busContext| == 256 && s.nextDomain <= s'.nextDomain < DOMAINS
    && (forall p :: p in uses ==> p in uses' && uses'[p] == uses[p])
    && (forall k :: k in s'.iotlb ==> k in s.iotlb && s'.iotlb[k] == s.iotlb[k])
    && (forall bus, i | 0 <= bus < 256 && 0 <= i < 256 :: (bus, i) != (b0, i0) ==> SameEntry(s, s', bus, i))
    && (SameEntry(s, s', b0, i0) || Replaced(s, s', uses', b0, i0))
  }

  lemma StepSlots(s: State, uses: Uses, s': State, uses': Uses, b0: nat, i0: nat)
    requires Slots(s, uses) && b0 < 256 && i0 < 256 && Step(s, uses, s', uses', b0, i0)
    ensures Slots(s', uses')
  {
    hide Walk, BigAt, Slot;
    forall bus, i | 0 <= bus < 256 && 0 <= i < 256 ensures SlotFine(s', uses', bus, i) {
      assert SlotFine(s, uses, bus, i);
      assert SameEntry(s, s', bus, i) || (bus, i) == (b0, i0);
    }
  }

  lemma StepApart(s: State, uses: Uses, s': State, uses': Uses, b0: nat, i0: nat)
    requires Slots(s, uses) && AllApart(s) && b0 < 256 && i0 < 256 && Step(s, uses, s', uses', b0, i0)
    ensures AllApart(s')
  {
    hide Walk, BigAt, Slot;
    forall bus, i, bus', i' | 0 <= bus < 256 && 0 <= i < 256 && 0 <= bus' < 256 && 0 <= i' < 256 && (bus, i) != (bus', i')
      ensures Apart(s', bus, i, bus', i')
    {
      assert Apart(s, bus, i, bus', i') && SlotFine(s, uses, bus, i) && SlotFine(s, uses, bus', i');
      assert SameEntry(s, s', bus, i) || (bus, i) == (b0, i0);
      assert SameEntry(s, s', bus', i') || (bus', i') == (b0, i0);
    }
  }

  lemma StepCache(s: State, uses: Uses, s': State, uses': Uses, b0: nat, i0: nat)
    requires Cache(s) && b0 < 256 && i0 < 256 && Step(s, uses, s', uses', b0, i0)
    ensures Cache(s')
  {
    hide Walk, BigAt, Slot;
    forall bus, i | 0 <= bus < 256 && 0 <= i < 256 ensures CacheFine(s', bus, i) {
      assert CacheFine(s, bus, i);
      assert SameEntry(s, s', bus, i) || (bus, i) == (b0, i0);
    }
  }

  lemma StepGood(s: State, uses: Uses, s': State, uses': Uses, b0: nat, i0: nat)
    requires Good(s, uses) && b0 < 256 && i0 < 256 && Step(s, uses, s', uses', b0, i0)
    requires Inv(s'.tables, uses') && Buses(s', uses')
    ensures Good(s', uses')
  {
    hide Walk, BigAt, Slot;
    StepSlots(s, uses, s', uses', b0, i0);
    StepApart(s, uses, s', uses', b0, i0);
    StepCache(s, uses, s', uses', b0, i0);
  }

  /** No context entry points at the tables rooted at `x`. */
  ghost predicate Detached(s: State, x: nat) {
    forall bus, i | 0 <= bus < 256 && 0 <= i < 256 ::
      Slot(s.tables.mem, s.root, bus, i).Some? ==> Slot(s.tables.mem, s.root, bus, i).value.root != x
  }

  ghost predicate SameEntries(s: State, s': State) {
    forall bus, i | 0 <= bus < 256 && 0 <= i < 256 :: SameEntry(s, s', bus, i)
  }

  /** Root and context tables that stay as they are give the same context entries. */
  lemma SlotsUnchanged(s: State, uses: Uses, m: Mem, bus: nat, i: nat)
    requires Good(s, uses) && bus < 256 && i < 256
    requires forall p :: p in uses && !uses[p].Table? ==> p in m && m[p] == s.tables.mem[p]
    ensures Slot(m, s.root, bus, i) == Slot(s.tables.mem, s.root, bus, i)
  {
    hide Walk, BigAt;
    assert BusOk(s, uses, bus);
    if s.busContext[bus] != 0 { ContextEntryDecodes(s.busContext[bus]); }
  }

  /** Building tables for a root that no device uses yet disturbs nothing. */
  lemma TablesChange(s: State, uses: Uses, t: Tables, uses': Uses, x: nat)
    requires Good(s, uses) && Inv(t, uses') && Detached(s, x)
    requires forall p :: p in uses ==> p in uses' && uses'[p] == uses[p]
    requires SameOthers(s.tables.mem, t.mem, uses)
    requires OtherRoots(s.tables.mem, t.mem, uses, x)
    ensures Good(s.(tables := t), uses') && SameEntries(s, s.(tables := t)) && Detached(s.(tables := t), x)
  {
    var s' := s.(tables := t);
    forall bus | 0 <= bus < 256 ensures BusOk(s', uses', bus) {
      assert BusOk(s, uses, bus);
    }
    forall bus, i | 0 <= bus < 256 && 0 <= i < 256 ensures SameEntry(s, s', bus, i) {
      SlotsUnchanged(s, uses, t.mem, bus, i);
      assert SlotFine(s, uses, bus, i);
    }
    assert SameEntry(s, s', 0, 0);
    StepGood(s, uses, s', uses', 0, 0);
    DetachedStays(s, s', x);
  }

  lemma DetachedStays(s: State, s': State, x: nat)
    requires SameEntries(s, s') && Detached(s, x)
    ensures Detached(s', x)
  {
    hide Walk, BigAt, Slot;
    forall bus, i | 0 <= bus < 256 && 0 <= i < 256
      ensures Slot(s'.tables.mem, s'.root, bus, i).Some? ==> Slot(s'.tables.mem, s'.root, bus, i).value.root != x
    {
      assert SameEntry(s, s', bus, i);
    }
  }

  // ----- Building a domain ------------------------------------------------

  ghost predicate Covered(addrs: seq<nat>, v: nat) {
    exists k :: 0 <= k < |addrs| && addrs[k] / PAGE == v / PAGE
  }

  lemma IdentityFrame(a: nat, v: nat)
    requires a < VA_LIMIT && a / PAGE == v / PAGE
    ensures Frame(a) + v % PAGE == v
  {
  }

  /** `m` translates, under `root`, the pages of `addrs` to themselves and nothing else. */
  ghost predicate Identity(m: Mem, root: nat, addrs: seq<nat>) {
    forall v: nat | v < VA_LIMIT ::
      !BigAt(m, root, v) && Walk(m, root, v) == if Covered(addrs, v) then Some(v) else None
  }

  ghost predicate OtherRoots(m: Mem, m': Mem, uses: Uses, root: nat) {
    forall r, v: nat | IsRoot(uses, r) && r != root && v < VA_LIMIT :: Walk(m', r, v) == Walk(m, r, v)
  }

  /** Under an empty root, mapping a list of addresses translates exactly the pages
      of those addresses, each to itself; every other root keeps its translations. */
  lemma {:induction false} MapAllExact(t: Tables, uses: Uses, root: nat, addrs: seq<nat>) returns (uses': Uses)
    requires Inv(t, uses) && IsRoot(uses, root) && Affords(t, uses, root, addrs)
    requires forall k :: 0 <= k < |addrs| ==> addrs[k] < VA_LIMIT
    requires Identity(t.mem, root, [])
    ensures var t' := MapAll(t, root, addrs);
            && Inv(t', uses') && Extends(uses, uses', root) && Takes(t, uses, t', uses', root, TablePaths(addrs))
            && SameOthers(t.mem, t'.mem, uses) && OtherRoots(t.mem, t'.mem, uses, root)
            && Identity(t'.mem, root, addrs)
  {
    hide Walk, BigAt, Map4K, Inv, Affords, Takes, PtFits;
    if addrs == [] {
      uses' := uses;
      TakesNothing(t, uses, root);
    } else {
      var init, a := addrs[..|addrs| - 1], addrs[|addrs| - 1];
      AffordsInit(t, uses, root, addrs);
      var uses1 := MapAllExact(t, uses, root, init);
      var t1 := MapAll(t, root, init);
      AffordsLast(t, uses, root, addrs, t1, uses1);
      uses' := Map4KExact(t1, uses1, root, a, a);
      var t' := MapAll(t, root, addrs);
      TakesTrans(t, uses, t1, uses1, t', uses', root, TablePaths(init), PtPaths(a));
      IdentityGrows(t1.mem, t'.mem, uses1, root, addrs);
      forall r, v: nat | IsRoot(uses, r) && r != root && v < VA_LIMIT
        ensures Walk(t'.mem, r, v) == Walk(t.mem, r, v)
      {
        assert IsRoot(uses1, r);
      }
    }
  }

  /** There is a fresh page for every table that `addrs` need and `root` does not have. */
  ghost predicate Affords(t: Tables, uses: Uses, root: nat, addrs: seq<nat>) {
    var ps := Paths(uses, root);
    |t.free| + |ps| >= |ps + TablePaths(addrs)|
  }

  lemma TakesNothing(t: Tables, uses: Uses, root: nat)
    requires Inv(t, uses)
    ensures TablePaths([]) == {} && Takes(t, uses, t, uses, root, {}) && SameOthers(t.mem, t.mem, uses)
  {
    hide Shape, SlotOk, Takes;
    TakesNone(t, uses, root);
  }

  lemma AffordsInit(t: Tables, uses: Uses, root: nat, addrs: seq<nat>)
    requires addrs != [] && Affords(t, uses, root, addrs)
    ensures Affords(t, uses, root, addrs[..|addrs| - 1])
  {
    hide Paths, PtPaths;
    Subset(Paths(uses, root) + TablePaths(addrs[..|addrs| - 1]), Paths(uses, root) + TablePaths(addrs));
  }

  /** Whether the last address can be mapped too. */
  lemma AffordsLast(t: Tables, uses: Uses, root: nat, addrs: seq<nat>, t1: Tables, uses1: Uses)
    requires addrs != [] && Inv(t1, uses1) && IsRoot(uses1, root) && Identity(t1.mem, root, addrs[..|addrs| - 1])
    requires addrs[|addrs| - 1] < VA_LIMIT && Takes(t, uses, t1, uses1, root, TablePaths(addrs[..|addrs| - 1]))
    ensures PtFits(t1, root, addrs[|addrs| - 1]) <==> Affords(t, uses, root, addrs)
  {
    hide Paths, PtPaths, Inv, PtFits, Walk, BigAt, Takes;
    var a := addrs[|addrs| - 1];
    PtFitsIff(t1, uses1, root, a);
    FitsNext(t, uses, t1, uses1, root, TablePaths(addrs[..|addrs| - 1]), PtPaths(a));
  }

  lemma IdentityGrows(m: Mem, m': Mem, uses: Uses, root: nat, addrs: seq<nat>)
    requires addrs != [] && IsRoot(uses, root) && addrs[|addrs| - 1] < VA_LIMIT
    requires Identity(m, root, addrs[..|addrs| - 1]) && SameSizes(m, m', uses)
    requires var a := addrs[|addrs| - 1]; Maps4K(m, m', uses, root, a, Frame(a))
    ensures Identity(m', root, addrs)
  {
    hide Walk, BigAt, Frame, Covered;
    forall v: nat | v < VA_LIMIT
      ensures !BigAt(m', root, v) && Walk(m', root, v) == if Covered(addrs, v) then Some(v) else None
    {
      CoveredStep(addrs, v);
      assert BigAt(m', root, v) == BigAt(m, root, v);
    }
  }

  lemma CoveredStep(addrs: seq<nat>, v: nat)
    requires addrs != [] && addrs[|addrs| - 1] < VA_LIMIT
    ensures var a := addrs[|addrs| - 1];
            (if Covered(addrs, v) then Some(v) else None) ==
            if v / PAGE == a / PAGE then Some(Frame(a) + v % PAGE)
            else if Covered(addrs[..|addrs| - 1], v) then Some(v) else None
  {
    hide Covered;
    CoveredInit(addrs, v);
    if v / PAGE == addrs[|addrs| - 1] / PAGE { IdentityFrame(addrs[|addrs| - 1], v); }
  }

  lemma CoveredInit(addrs: seq<nat>, v: nat)
    requires addrs != []
    ensures Covered(addrs, v) <==> addrs[|addrs| - 1] / PAGE == v / PAGE || Covered(addrs[..|addrs| - 1], v)
  {
    var init := addrs[..|addrs| - 1];
    if Covered(addrs, v) {
      var k :| 0 <= k < |addrs| && addrs[k] / PAGE == v / PAGE;
      assert k < |init| ==> init[k] == addrs[k];
    }
    if Covered(init, v) {
      var k :| 0 <= k < |init| && init[k] / PAGE == v / PAGE;
      assert init[k] == addrs[k];
    }
  }

  // ----- Assigning a device -----------------------------------------------

  /** How many pages assigning the ranges takes: the root, one for every table under it,
      and a context table if the bus has none. */
  ghost function Needed(s: State, b: Bdf, ranges: seq<Range>): nat
    requires |s.busContext| == 256 && IsBdf(b)
  {
    1 + |TablePaths(PagesOf(ranges))| + if s.busContext[b.bus] == 0 then 1 else 0
  }

  ghost predicate Enough(s: State, b: Bdf, ranges: seq<Range>) {
    && |s.busContext| == 256 && IsBdf(b)
    && |s.tables.free| >= Needed(s, b, ranges)
  }

  /** Three pages for each page mapped and two more are always enough. */
  lemma ThreeEachIsEnough(s: State, b: Bdf, ranges: seq<Range>)
    requires |s.busContext| == 256 && IsBdf(b) && |s.tables.free| >= 3 * |PagesOf(ranges)| + 2
    ensures Enough(s, b, ranges)
  {
    ThreeEach(PagesOf(ranges));
  }

  ghost predicate InReach(ranges: seq<Range>) {
    forall k :: 0 <= k < |PagesOf(ranges)| ==> PagesOf(ranges)[k] < VA_LIMIT
  }

  lemma UnusedIsDetached(s: State, uses: Uses, x: nat)
    requires Slots(s, uses) && x !in uses
    ensures Detached(s, x)
  {
    forall bus, i | 0 <= bus < 256 && 0 <= i < 256
      ensures Slot(s.tables.mem, s.root, bus, i).Some? ==> Slot(s.tables.mem, s.root, bus, i).value.root != x
    {
      assert SlotFine(s, uses, bus, i);
    }
  }

  lemma SameEntriesTrans(s: State, s': State, s'': State)
    requires SameEntries(s, s') && SameEntries(s', s'')
    ensures SameEntries(s, s'')
  {
    hide Walk, BigAt, Slot;
    forall bus, i | 0 <= bus < 256 && 0 <= i < 256 ensures SameEntry(s, s'', bus, i) {
      assert SameEntry(s, s', bus, i) && SameEntry(s', s'', bus, i);
    }
  }

  /** Stage one: a fresh root, and the domain's tables under it. */
  lemma DomainBuilt(s: State, uses: Uses, ranges: seq<Range>) returns (s': State, uses': Uses)
    requires Good(s, uses) && |s.tables.free| >= 1 + |TablePaths(PagesOf(ranges))| && InReach(ranges)
    ensures var pml4 := s.tables.free[0];
            && s' == s.(tables := MapAll(Alloc(s.tables).0, pml4, PagesOf(ranges)))
            && Good(s', uses') && SameEntries(s, s') && Detached(s', pml4) && IsRoot(uses', pml4)
            && |s'.tables.free| == |s.tables.free| - 1 - |TablePaths(PagesOf(ranges))|
            && FromPool(s.tables, uses, s'.tables, uses')
            && Identity(s'.tables.mem, pml4, PagesOf(ranges))
  {
    hide Walk, BigAt, Slot, Paths, TablePaths, PagesOf, Buses, AllApart, Cache, TreeInv, MapAll, Affords, Identity, OtherRoots;
    var pml4, addrs := s.tables.free[0], PagesOf(ranges);
    var t1 := Alloc(s.tables).0;
    var uses1 := UsesAfterAlloc(s.tables, uses, Table(pml4, []));
    AllocKeeps(s.tables, uses, Table(pml4, []));
    UnusedIsDetached(s, uses, pml4);
    NoneMapped(s.tables.mem, t1.mem, uses, pml4);
    TablesChange(s, uses, t1, uses1, pml4);
    var s1 := s.(tables := t1);
    FreshRoot(s.tables, uses, addrs);
    uses' := MapAllExact(t1, uses1, pml4, addrs);
    s' := s.(tables := MapAll(t1, pml4, addrs));
    TablesChange(s1, uses1, s'.tables, uses', pml4);
    assert s' == s1.(tables := s'.tables);
    SameEntriesTrans(s, s1, s');
  }

  lemma NoneMapped(m: Mem, m': Mem, uses: Uses, root: nat)
    requires SameWalks(m, m', uses) && forall v: nat :: Walk(m', root, v) == None && !BigAt(m', root, v)
    ensures OtherRoots(m, m', uses, root) && Identity(m', root, [])
  {
    hide Walk, BigAt;
  }

  /** Under a fresh root every table is still to be built. */
  lemma FreshRoot(t: Tables, uses: Uses, addrs: seq<nat>)
    requires Inv(t, uses) && t.free != []
    ensures var root := t.free[0];
            var uses1 := UsesAfterAlloc(t, uses, Table(root, []));
            && Paths(uses1, root) == {[]} && |{[]} + TablePaths(addrs)| == 1 + |TablePaths(addrs)|
            && (Affords(Alloc(t).0, uses1, root, addrs) <==> |t.free| >= 1 + |TablePaths(addrs)|)
  {
    hide Inv, Paths, TablePaths;
    NewRootHasNoTables(t, uses);
    ThreeEach(addrs);
    var one: set<seq<nat>> := {[]};
    assert |one + TablePaths(addrs)| == |one| + |TablePaths(addrs)|;
  }

  /** Pages keep their use, and pages put to use were fresh. */
  ghost predicate FromPool(t: Tables, uses: Uses, t': Tables, uses': Uses) {
    && (forall p :: p in uses ==> p in uses' && uses'[p] == uses[p])
    && (forall p :: p in uses' ==> p in uses || p in t.free)
    && (forall p :: p in t'.free ==> p in t.free)
  }

  /** Stage two: the bus's context table. */
  lemma ContextBuilt(s: State, uses: Uses, bus: nat) returns (uses': Uses)
    requires Good(s, uses) && bus < 256 && (s.busContext[bus] == 0 ==> s.tables.free != [])
    ensures var s' := WithContext(s, bus);
            && Good(s', uses') && SameEntries(s, s') && s'.busContext[bus] != 0
            && s' == s.(tables := s'.tables, busContext := s'.busContext)
            && FromPool(s.tables, uses, s'.tables, uses')
            && SameWalks(s.tables.mem, s'.tables.mem, uses)
  {
    hide Walk, BigAt, Slot;
    if s.busContext[bus] != 0 {
      uses' := uses;
    } else {
      uses' := UsesAfterAlloc(s.tables, uses, ContextTable(bus));
      ContextAllocated(s.tables, uses, s.root, bus);
      ContextHooked(s, uses, uses', bus);
      StepGood(s, uses, WithContext(s, bus), uses', 0, 0);
    }
  }

  lemma ContextAllocated(t: Tables, uses: Uses, rootTable: nat, bus: nat)
    requires Inv(t, uses) && bus < 256 && t.free != [] && rootTable in uses && uses[rootTable] == RootTable
    ensures var t' := Alloc(t).0.(mem := Write(Alloc(t).0.mem, rootTable, 2 * bus, t.free[0] + 1));
            && Inv(t', UsesAfterAlloc(t, uses, ContextTable(bus))) && SameWalks(t.mem, t'.mem, uses)
            && t.free[0] != 0
  {
    hide Walk, BigAt;
    var uses' := UsesAfterAlloc(t, uses, ContextTable(bus));
    AllocKeeps(t, uses, ContextTable(bus));
    var m := Alloc(t).0.mem;
    OtherWrite(m, uses', rootTable, 2 * bus, t.free[0] + 1);
    SameWalksTrans(t.mem, m, Write(m, rootTable, 2 * bus, t.free[0] + 1), uses, uses');
  }

  lemma ContextHooked(s: State, uses: Uses, uses': Uses, bus: nat)
    requires Good(s, uses) && bus < 256 && s.tables.free != [] && s.busContext[bus] == 0
    requires uses' == UsesAfterAlloc(s.tables, uses, ContextTable(bus))
    requires SameWalks(s.tables.mem, WithContext(s, bus).tables.mem, uses)
    ensures SameEntries(s, WithContext(s, bus)) && Buses(WithContext(s, bus), uses')
  {
    hide Walk, BigAt;
    var s', page := WithContext(s, bus), s.tables.free[0];
    var m, m' := s.tables.mem, s'.tables.mem;
    ContextEntryDecodes(page);
    forall k | 0 <= k < 256 ensures BusOk(s', uses', k) {
      assert BusOk(s, uses, k);
    }
    forall k, i | 0 <= k < 256 && 0 <= i < 256 ensures SameEntry(s, s', k, i) {
      assert BusOk(s, uses, k) && SlotFine(s, uses, k, i);
      var c := s.busContext[k];
      if k == bus {
        assert Read(m', page, 2 * i) == 0;
      } else if c != 0 {
        ContextEntryDecodes(c);
        assert m'[c] == m[c];
      }
    }
  }

  /** Stage three: what the two writes do to the context entries. */
  lemma InstalledSlot(s: State, uses: Uses, b: Bdf, pml4: nat, bus: nat, i: nat)
    requires Good(s, uses) && IsBdf(b) && s.busContext[b.bus] != 0 && s.nextDomain + 1 < DOMAINS
    requires PageAddr(pml4) && bus < 256 && i < 256
    ensures Slot(Install(s, b, pml4).tables.mem, s.root, bus, i) ==
            if (bus, i) == (b.bus, DevFn(b)) then Some(Context(pml4, s.nextDomain + 1))
            else Slot(s.tables.mem, s.root, bus, i)
    ensures BusOk(Install(s, b, pml4), uses, bus)
  {
    hide Slots, AllApart, Cache, SlotOk, Shape, FreeOk;
    var m, m' := s.tables.mem, Install(s, b, pml4).tables.mem;
    assert BusOk(s, uses, bus) && BusOk(s, uses, b.bus);
    ContextEntryDecodes(pml4);
    if s.busContext[bus] != 0 { ContextEntryDecodes(s.busContext[bus]); }
    assert forall p :: p in uses && p != s.busContext[b.bus] ==> m'[p] == m[p];
  }

  /** Whatever the step was, if it changed nothing but the device's own entry. */
  lemma OneEntryGood(s: State, uses: Uses, s': State, b: Bdf)
    requires Good(s, uses) && IsBdf(b) && Inv(s'.tables, uses) && |s'.busContext| == 256 && Buses(s', uses)
    requires s'.root == s.root && s.nextDomain <= s'.nextDomain < DOMAINS
    requires forall k :: k in s'.iotlb ==> k in s.iotlb && s'.iotlb[k] == s.iotlb[k]
    requires OthersSame(s, s', b) && Replaced(s, s', uses, b.bus, DevFn(b))
    ensures Good(s', uses)
  {
    hide Walk, BigAt, Slot;
    StepGood(s, uses, s', uses, b.bus, DevFn(b));
  }

  lemma InstallGood(s: State, uses: Uses, b: Bdf, pml4: nat, s': State)
    requires Good(s, uses) && IsBdf(b) && s.busContext[b.bus] != 0 && s.nextDomain + 1 < DOMAINS
    requires IsRoot(uses, pml4) && Detached(s, pml4) && s' == Install(s, b, pml4)
    ensures Good(s', uses) && SameWalks(s.tables.mem, s'.tables.mem, uses)
    ensures ContextOf(s', b) == Some(Context(pml4, s.nextDomain + 1)) && OthersSame(s, s', b)
  {
    hide Walk, BigAt, Slot;
    assert BusOk(s, uses, b.bus);
    InstallTables(s, uses, b, pml4);
    InstalledEntries(s, uses, b, pml4);
    OneEntryGood(s, uses, s', b);
  }

  lemma InstalledEntries(s: State, uses: Uses, b: Bdf, pml4: nat)
    requires Good(s, uses) && IsBdf(b) && s.busContext[b.bus] != 0 && s.nextDomain + 1 < DOMAINS
    requires IsRoot(uses, pml4) && SameWalks(s.tables.mem, Install(s, b, pml4).tables.mem, uses)
    ensures Buses(Install(s, b, pml4), uses) && OthersSame(s, Install(s, b, pml4), b)
    ensures ContextOf(Install(s, b, pml4), b) == Some(Context(pml4, s.nextDomain + 1))
  {
    hide Walk, BigAt, Slot;
    var s' := Install(s, b, pml4);
    InstalledSlot(s, uses, b, pml4, b.bus, DevFn(b));
    forall bus | 0 <= bus < 256 ensures BusOk(s', uses, bus) {
      InstalledSlot(s, uses, b, pml4, bus, 0);
    }
    forall bus, i | 0 <= bus < 256 && 0 <= i < 256 && (bus, i) != (b.bus, DevFn(b)) ensures SameEntry(s, s', bus, i) {
      InstalledSlot(s, uses, b, pml4, bus, i);
      assert SlotFine(s, uses, bus, i);
    }
  }

  /** Every entry but the device's own, and all it translates, is as it was. */
  ghost predicate OthersSame(s: State, s': State, b: Bdf)
    requires IsBdf(b)
  {
    forall bus, i | 0 <= bus < 256 && 0 <= i < 256 :: (bus, i) != (b.bus, DevFn(b)) ==> SameEntry(s, s', bus, i)
  }

  lemma InstallTables(s: State, uses: Uses, b: Bdf, pml4: nat)
    requires Inv(s.tables, uses) && IsBdf(b) && |s.busContext| == 256 && s.busContext[b.bus] != 0 && BusOk(s, uses, b.bus)
    ensures var t := Install(s, b, pml4).tables;
            Inv(t, uses) && SameWalks(s.tables.mem, t.mem, uses)
  {
    hide Inv, SameWalks, Write;
    var ctx, i, d := s.busContext[b.bus], CtxIndex(b), (s.nextDomain + 1) % DOMAINS;
    TwoWrites(s.tables, uses, ctx, 2 * i, pml4 + 1, 2 + d * 256);
  }

  lemma TwoWrites(t: Tables, uses: Uses, ctx: nat, i: nat, low: nat, high: nat)
    requires Inv(t, uses) && ctx in uses && !uses[ctx].Table? && i < 511
    ensures var m := Write(Write(t.mem, ctx, i, low), ctx, i + 1, high);
            Inv(t.(mem := m), uses) && SameWalks(t.mem, m, uses)
  {
    hide Walk, BigAt;
    OtherWrite(t.mem, uses, ctx, i, low);
    var m1 := Write(t.mem, ctx, i, low);
    OtherWrite(m1, uses, ctx, i + 1, high);
    SameWalksTrans(t.mem, m1, Write(m1, ctx, i + 1, high), uses, uses);
  }

  lemma OthersTrans(s: State, s1: State, s2: State, b: Bdf)
    requires IsBdf(b) && SameEntries(s, s1) && OthersSame(s1, s2, b)
    ensures OthersSame(s, s2, b)
  {
    hide Walk, BigAt, Slot;
    forall bus, i | 0 <= bus < 256 && 0 <= i < 256 && (bus, i) != (b.bus, DevFn(b)) ensures SameEntry(s, s2, bus, i) {
      assert SameEntry(s, s1, bus, i) && SameEntry(s1, s2, bus, i);
    }
  }

  /** The general form: the new domain translates exactly the pages of the addresses
      the loops visit. */
  lemma AssignBuilds(s: State, uses: Uses, b: Bdf, ranges: seq<Range>, s': State) returns (uses': Uses)
    requires Good(s, uses) && Enough(s, b, ranges) && InReach(ranges) && s.nextDomain + 1 < DOMAINS
    requires s' == Assign(s, b, ranges)
    ensures Good(s', uses') && OthersSame(s, s', b) && s'.iotlb == s.iotlb
    ensures ContextOf(s', b) == Some(Context(s.tables.free[0], s.nextDomain + 1))
    ensures Identity(s'.tables.mem, s.tables.free[0], PagesOf(ranges)) && FromPool(s.tables, uses, s'.tables, uses')
  {
    hide Walk, BigAt, Slot, Good, PagesOf, Covered, Detached, SameEntries, OthersSame, Install, WithContext, MapAll, ContextOf, InReach, TablePaths;
    var pml4 := s.tables.free[0];
    var s1, uses1 := DomainBuilt(s, uses, ranges);
    var s2;
    uses', s2 := Hooked(s1, uses1, b, pml4, s');
    OthersTrans(s, s1, s', b);
  }

  // ----- When it succeeds -------------------------------------------------

  /** The device's entry leads to tables that translate exactly the pages the loops visit,
      and everything is in order, with pages of the allocator's as tables. */
  ghost predicate Succeeds(s: State, uses: Uses, b: Bdf, ranges: seq<Range>, s': State, uses': Uses)
    requires IsBdf(b)
  {
    && Good(s', uses') && FromPool(s.tables, uses, s'.tables, uses') && ContextOf(s', b).Some?
    && Identity(s'.tables.mem, ContextOf(s', b).value.root, PagesOf(ranges))
  }

  lemma {:induction false} ImageSize(uses: Uses, ps: set<nat>)
    requires forall p :: p in ps ==> p in uses && uses[p].Table?
    ensures |set p | p in ps :: uses[p].path| <= |ps|
    decreases ps
  {
    var all := set p | p in ps :: uses[p].path;
    if ps != {} {
      var x :| x in ps;
      var rest := ps - {x};
      ImageSize(uses, rest);
      var few := set p | p in rest :: uses[p].path;
      assert all <= few + {uses[x].path};
      Subset(all, few + {uses[x].path});
    }
  }

  ghost function Elements(l: seq<nat>): set<nat> { set x | x in l }

  lemma {:induction false} SeqSize(l: seq<nat>)
    ensures |Elements(l)| <= |l|
  {
    if l != [] {
      var init, last := l[..|l| - 1], l[|l| - 1];
      SeqSize(init);
      assert Elements(l) == Elements(init) + {last} by { assert l == init + [last]; }
    }
  }

  lemma AllocLeft(t: Tables)
    ensures forall p :: p in Alloc(t).0.free ==> p in t.free
    ensures Alloc(t).1 != 0 ==> Alloc(t).1 in t.free
  {
  }

  lemma EnsureLeft(t: Tables, q: nat, i: nat)
    requires i < 512
    ensures forall p :: p in Ensure(t, q, i).free ==> p in t.free
  {
    AllocLeft(t);
  }

  lemma Map4KLeft(t: Tables, root: nat, v: nat, pa: nat)
    ensures forall p :: p in Map4K(t, root, v, pa).free ==> p in t.free
  {
    hide Ensure, Child, Write, I1, I2, I3, I4;
    var s1 := Ensure(t, root, I4(v));
    var s2, pd := EnsurePd(t, root, v).0, EnsurePd(t, root, v).1;
    EnsureLeft(t, root, I4(v));
    EnsureLeft(s1, Child(s1, root, I4(v)), I3(v));
    EnsureLeft(s2, pd, I2(v));
  }

  lemma {:induction false} MapAllLeft(t: Tables, root: nat, addrs: seq<nat>)
    ensures forall p :: p in MapAll(t, root, addrs).free ==> p in t.free
  {
    hide Map4K;
    if addrs != [] {
      var init, a := addrs[..|addrs| - 1], addrs[|addrs| - 1];
      MapAllLeft(t, root, init);
      Map4KLeft(MapAll(t, root, init), root, a, a);
    }
  }

  /** An address that translates has all its tables. */
  lemma WalkHasTables(m: Mem, uses: Uses, root: nat, v: nat)
    requires TreeInv(m, uses) && IsRoot(uses, root) && Walk(m, root, v).Some? && !BigAt(m, root, v)
    ensures PtPaths(v) <= Paths(uses, root)
  {
    hide Shape, SlotOk, Present, Huge, Frame, I4, I3, I2, I1;
    Visits(m, uses, root, v);
    assert root in m;
    var p3 := Frame(m[root][I4(v)]);
    var p2 := Frame(m[p3][I3(v)]);
    var p1 := Frame(m[p2][I2(v)]);
    assert uses[p3].path in Paths(uses, root) && uses[p2].path in Paths(uses, root) && uses[p1].path in Paths(uses, root);
  }

  lemma {:induction false} DomainHasTables(m: Mem, uses: Uses, root: nat, addrs: seq<nat>, k: nat)
    requires TreeInv(m, uses) && IsRoot(uses, root) && Identity(m, root, addrs) && k <= |addrs|
    requires forall i :: 0 <= i < |addrs| ==> addrs[i] < VA_LIMIT
    ensures TablePaths(addrs[..k]) <= Paths(uses, root)
  {
    hide TreeInv, Walk, BigAt, Paths, PtPaths;
    if k > 0 {
      DomainHasTables(m, uses, root, addrs, k - 1);
      assert addrs[..k][..k - 1] == addrs[..k - 1];
      assert Covered(addrs, addrs[k - 1]);
      WalkHasTables(m, uses, root, addrs[k - 1]);
    }
  }

  /** The entry the driver writes, seen from the root table of a good state. */
  lemma EntryWritten(s: State, uses': Uses, b: Bdf, pml4: nat, s': State)
    requires |s.busContext| == 256 && IsBdf(b) && s' == Install(s, b, pml4)
    requires Good(s', uses') && (s.busContext[b.bus] != 0 || ContextOf(s', b).Some?) && (pml4 == 0 || PageAddr(pml4))
    ensures var c := s.busContext[b.bus];
            && c != 0 && c in uses' && !uses'[c].Table?
            && IsRoot(uses', pml4) && pml4 != 0 && ContextOf(s', b).Some? && ContextOf(s', b).value.root == pml4
            && 1 <= (s.nextDomain + 1) % DOMAINS
  {
    hide Walk, BigAt, AllApart, Cache, SlotOk, Shape, FreeOk;
    var c, d := s.busContext[b.bus], (s.nextDomain + 1) % DOMAINS;
    assert BusOk(s', uses', b.bus) && SlotFine(s', uses', b.bus, DevFn(b));
    ContextEntryDecodes(c);
    ContextEntryDecodes(pml4);
    DivIs(2 + d * 256, 256, d, 2);
  }

  /** No state in which the assignment has succeeded makes do with fewer pages. */
  lemma SuccessNeedsPages(s: State, uses: Uses, b: Bdf, ranges: seq<Range>, s': State, uses': Uses)
    requires Good(s, uses) && IsBdf(b) && InReach(ranges) && s' == Assign(s, b, ranges)
    requires Succeeds(s, uses, b, ranges, s', uses')
    ensures Enough(s, b, ranges) && s.nextDomain + 1 < DOMAINS
  {
    hide Walk, BigAt, Slot, ContextOf, SlotOk, Shape, PagesOf, Install, MapAll, Slots, AllApart, Cache, Buses, TablePaths, Paths;
    var (t1, pml4) := Alloc(s.tables);
    var addrs := PagesOf(ranges);
    var s1 := s.(tables := MapAll(t1, pml4, addrs));
    var s2 := WithContext(s1, b.bus);
    EntryWritten(s2, uses', b, pml4, s');
    AllocLeft(s.tables);
    MapAllLeft(t1, pml4, addrs);
    AllocLeft(s1.tables);
    DomainHasTables(s'.tables.mem, uses', pml4, addrs, |addrs|);
    assert addrs[..|addrs|] == addrs;
    PagesHandedOut(s.tables, uses, s'.tables, uses', pml4, addrs, s2.busContext[b.bus], s.busContext[b.bus] == 0);
  }

  lemma PagesHandedOut(t: Tables, uses: Uses, t': Tables, uses': Uses, root: nat, addrs: seq<nat>, c: nat, more: bool)
    requires Inv(t, uses) && Inv(t', uses') && FromPool(t, uses, t', uses') && IsRoot(uses', root) && root in t.free
    requires TablePaths(addrs) <= Paths(uses', root) && c in uses' && !uses'[c].Table? && (more ==> c in t.free)
    ensures |t.free| >= 1 + |TablePaths(addrs)| + if more then 1 else 0
  {
    hide Inv, FromPool, TablePaths, Paths;
    var tables := set p | p in uses' && uses'[p].Table? && uses'[p].root == root;
    var pool := Elements(t.free);
    TablesCount(uses', root, addrs, tables);
    NewTablesWereFree(t, uses, t', uses', root, tables);
    SeqSize(t.free);
    Subset(if more then tables + {c} else tables, pool);
  }

  lemma TablesCount(uses: Uses, root: nat, addrs: seq<nat>, tables: set<nat>)
    requires IsRoot(uses, root) && TablePaths(addrs) <= Paths(uses, root)
    requires tables == set p | p in uses && uses[p].Table? && uses[p].root == root
    ensures 1 + |TablePaths(addrs)| <= |tables|
  {
    hide TablePaths;
    assert Paths(uses, root) == set p | p in tables :: uses[p].path;
    ImageSize(uses, tables);
    ThreeEach(addrs);
    assert [] in Paths(uses, root) by { assert uses[root].path == []; }
    Subset(TablePaths(addrs) + {[]}, Paths(uses, root));
  }

  lemma NewTablesWereFree(t: Tables, uses: Uses, t': Tables, uses': Uses, root: nat, tables: set<nat>)
    requires Inv(t, uses) && FromPool(t, uses, t', uses') && root in t.free
    requires tables == set p | p in uses' && uses'[p].Table? && uses'[p].root == root
    ensures forall p :: p in tables ==> p in t.free
  {
    hide TreeInv;
    forall p | p in tables ensures p in t.free {
      if p in uses { RootIsUsed(t.mem, uses, p); }
    }
  }

  /** `assign_device` succeeds if and only if the allocator has a page for the root, for
      every table under it and for a missing context table, and the domain ids are not used
      up.  The driver checks neither. */
  lemma AssignSucceedsIff(s: State, uses: Uses, b: Bdf, ranges: seq<Range>, s': State)
    requires Good(s, uses) && IsBdf(b) && InReach(ranges) && s' == Assign(s, b, ranges)
    ensures (exists uses' :: Succeeds(s, uses, b, ranges, s', uses')) <==>
            Enough(s, b, ranges) && s.nextDomain + 1 < DOMAINS
  {
    hide Good, InReach, Assign, Enough, FromPool, Identity, ContextOf, OthersSame;
    if uses' :| Succeeds(s, uses, b, ranges, s', uses') {
      SuccessNeedsPages(s, uses, b, ranges, s', uses');
    }
    if Enough(s, b, ranges) && s.nextDomain + 1 < DOMAINS {
      var uses' := AssignBuilds(s, uses, b, ranges, s');
      assert Succeeds(s, uses, b, ranges, s', uses');
    }
  }

  // ----- Which bytes that is ----------------------------------------------

  /** How many pages a range of `len` bytes is taken to need. */
  function PageCount(len: nat): nat { (len + 4095) / PAGE }

  /** `v` is on one of the pages counted from the page of the range's base. */
  predicate OnRange(r: Range, v: nat) { r.base / PAGE <= v / PAGE < r.base / PAGE + PageCount(r.len) }

  ghost predicate OnRanges(ranges: seq<Range>, v: nat) { exists k :: 0 <= k < |ranges| && OnRange(ranges[k], v) }

  /** Every range ends below 2^48. */
  predicate Below48(ranges: seq<Range>) { forall k :: 0 <= k < |ranges| ==> ranges[k].base + ranges[k].len <= VA_LIMIT }

  lemma RangePageAt(r: Range, k: nat)
    requires r.base + r.len <= VA_LIMIT
    ensures |RangePages(r)| == PageCount(r.len)
    ensures k < PageCount(r.len) ==>
              RangePages(r)[k] == r.base + k * PAGE < VA_LIMIT && RangePages(r)[k] / PAGE == r.base / PAGE + k
  {
    DivIs(r.len + 4095, WORD, 0, r.len + 4095);
    if k < PageCount(r.len) {
      var a := r.base + k * PAGE;
      assert (k + 1) * PAGE <= r.len + 4095;
      DivIs(a, WORD, 0, a);
      DivIs(a, PAGE, r.base / PAGE + k, r.base % PAGE);
    }
  }

  lemma RangeCovers(r: Range, v: nat)
    requires r.base + r.len <= VA_LIMIT
    ensures Covered(RangePages(r), v) <==> OnRange(r, v)
  {
    hide RangePages, PageCount;
    RangePageAt(r, 0);
    if Covered(RangePages(r), v) {
      var k :| 0 <= k < |RangePages(r)| && RangePages(r)[k] / PAGE == v / PAGE;
      RangePageAt(r, k);
    }
    if OnRange(r, v) {
      var k := v / PAGE - r.base / PAGE;
      RangePageAt(r, k);
      assert RangePages(r)[k] / PAGE == v / PAGE;
    }
  }

  lemma CoveredConcat(a: seq<nat>, c: seq<nat>, v: nat)
    ensures Covered(a + c, v) <==> Covered(a, v) || Covered(c, v)
  {
    var all := a + c;
    if Covered(a, v) {
      var k :| 0 <= k < |a| && a[k] / PAGE == v / PAGE;
      assert all[k] / PAGE == v / PAGE;
    }
    if Covered(c, v) {
      var k :| 0 <= k < |c| && c[k] / PAGE == v / PAGE;
      assert all[|a| + k] / PAGE == v / PAGE;
    }
  }

  lemma OnRangesLast(ranges: seq<Range>, v: nat)
    requires ranges != []
    ensures OnRanges(ranges, v) <==> OnRanges(ranges[..|ranges| - 1], v) || OnRange(ranges[|ranges| - 1], v)
  {
    hide OnRange;
    var init := ranges[..|ranges| - 1];
    if OnRanges(init, v) {
      var k :| 0 <= k < |init| && OnRange(init[k], v);
      assert OnRange(ranges[k], v);
    }
    if OnRanges(ranges, v) {
      var k :| 0 <= k < |ranges| && OnRange(ranges[k], v);
      assert k < |init| ==> OnRange(init[k], v);
    }
  }

  /** The addresses the loops visit, in terms of the ranges given. */
  lemma {:induction false} LoopsCoverRanges(ranges: seq<Range>, v: nat)
    requires Below48(ranges)
    ensures Covered(PagesOf(ranges), v) <==> OnRanges(ranges, v)
  {
    if ranges != [] {
      hide Covered, OnRange, RangePages;
      var init, r := ranges[..|ranges| - 1], ranges[|ranges| - 1];
      LoopsCoverRanges(init, v);
      RangeCovers(r, v);
      CoveredConcat(PagesOf(init), RangePages(r), v);
      OnRangesLast(ranges, v);
    }
  }

  lemma {:induction false} Below48InReach(ranges: seq<Range>)
    requires Below48(ranges)
    ensures InReach(ranges)
  {
    if ranges != [] {
      hide RangePages, PageCount;
      var init, r := ranges[..|ranges| - 1], ranges[|ranges| - 1];
      Below48InReach(init);
      RangePageAt(r, 0);
      var a, c := PagesOf(init), RangePages(r);
      assert PagesOf(ranges) == a + c;
      forall k | 0 <= k < |a + c| ensures (a + c)[k] < VA_LIMIT {
        if k >= |a| { RangePageAt(r, k - |a|); }
      }
    }
  }

  function PageNo(x: nat): nat { x / 4096 }

  predicate InRange(r: Range, x: nat) { r.base <= x < r.base + r.len }

  /** The page of the byte holds a byte of the range. */
  ghost predicate OnPageOf(r: Range, v: nat) { exists x: nat :: InRange(r, x) && PageNo(x) == PageNo(v) }

  /** ... of one of the ranges. */
  ghost predicate InRanges(ranges: seq<Range>, v: nat) { exists k :: 0 <= k < |ranges| && OnPageOf(ranges[k], v) }

  predicate AllAligned(ranges: seq<Range>) { forall k :: 0 <= k < |ranges| ==> ranges[k].base % PAGE == 0 }

  lemma AlignedRangesAreExact(ranges: seq<Range>, v: nat)
    requires AllAligned(ranges)
    ensures OnRanges(ranges, v) <==> InRanges(ranges, v)
  {
    hide OnRange, PageCount, OnPageOf;
    if OnRanges(ranges, v) {
      var k :| 0 <= k < |ranges| && OnRange(ranges[k], v);
      AlignedRangeIsExact(ranges[k], v);
    }
    if InRanges(ranges, v) {
      var k :| 0 <= k < |ranges| && OnPageOf(ranges[k], v);
      AlignedRangeIsExact(ranges[k], v);
    }
  }

  /** `m` translates, under `root`, exactly the addresses on the ranges, to themselves. */
  ghost predicate TranslatesRanges(m: Mem, root: nat, ranges: seq<Range>) {
    forall v: nat | v < VA_LIMIT :: Walk(m, root, v) == if OnRanges(ranges, v) then Some(v) else None
  }

  lemma IdentityIsRanges(m: Mem, root: nat, ranges: seq<Range>)
    requires Below48(ranges) && Identity(m, root, PagesOf(ranges))
    ensures TranslatesRanges(m, root, ranges)
  {
    hide Walk, BigAt, Covered, OnRanges, PagesOf;
    forall v: nat | v < VA_LIMIT ensures Walk(m, root, v) == if OnRanges(ranges, v) then Some(v) else None {
      LoopsCoverRanges(ranges, v);
    }
  }

  /** Every address that translates can be written. */
  ghost predicate AllWritable(m: Mem, root: nat) { forall v: nat :: Walk(m, root, v).Some? ==> CanWrite(m, root, v) }

  lemma GoodIsWritable(s: State, uses: Uses, b: Bdf)
    requires Good(s, uses) && IsBdf(b) && ContextOf(s, b).Some?
    ensures AllWritable(s.tables.mem, ContextOf(s, b).value.root)
  {
    hide Walk, BigAt, Slot, CanWrite, CanUser, TreeInv, AllApart, Cache, Buses;
    var root := ContextOf(s, b).value.root;
    assert SlotFine(s, uses, b.bus, DevFn(b));
    forall v: nat ensures Walk(s.tables.mem, root, v).Some? ==> CanWrite(s.tables.mem, root, v) {
      TranslatedIsWritable(s.tables.mem, uses, root, v);
    }
  }

  /** The bus's entry of the root table leads to a context page in which the two words of
      function `f` of device `d`, at 16 bytes to a function and eight functions to a device,
      are `low` and `high`. */
  predicate HasWords(s: State, bus: nat, d: nat, f: nat, low: nat, high: nat)
    requires bus < 256 && d < 32 && f < 8
  {
    var e := Read(s.tables.mem, s.root, 2 * bus);
    && Present(e) && e < 0x10_0000_0000_0000 && e % 4096 == 1
    && Read(s.tables.mem, e - 1, 2 * (8 * d + f)) == low
    && Read(s.tables.mem, e - 1, 2 * (8 * d + f) + 1) == high
  }

  lemma BusWord(s: State, uses: Uses, bus: nat)
    requires Good(s, uses) && bus < 256 && s.busContext[bus] != 0
    ensures var e := Read(s.tables.mem, s.root, 2 * bus);
            e == s.busContext[bus] + 1 && Present(e) && e < 0x10_0000_0000_0000 && e % 4096 == 1
  {
    hide Walk, BigAt, Slots, AllApart, Cache, SlotOk, Shape, Open, FreeOk;
    assert BusOk(s, uses, bus);
    EntryDecodes(s.busContext[bus], 1);
  }

  lemma AssignedWords(s: State, uses': Uses, b: Bdf, ranges: seq<Range>, s': State)
    requires |s.busContext| == 256 && OnBus(b) && s' == Assign(s, b, ranges) && Good(s', uses') && ContextOf(s', b).Some?
    requires s.tables.free != [] && s.nextDomain + 1 < DOMAINS
    ensures HasWords(s', b.bus, b.device, b.function_, s.tables.free[0] + 1, 2 + 256 * (s.nextDomain + 1))
  {
    hide Good, MapAll, WithContext, ContextOf, PagesOf, Install;
    var (t1, pml4) := Alloc(s.tables);
    DomainKept(s, b, ranges);
    var s2 := WithContext(s.(tables := MapAll(t1, pml4, PagesOf(ranges))), b.bus);
    InstalledWords(s2, b, pml4, s');
    HasContext(s', uses', b);
    BusWord(s', uses', b.bus);
  }

  lemma InstalledWords(s: State, b: Bdf, pml4: nat, s': State)
    requires |s.busContext| == 256 && OnBus(b) && s' == Install(s, b, pml4) && s.nextDomain + 1 < DOMAINS
    ensures s'.busContext == s.busContext
    ensures var ctx, i := s.busContext[b.bus], 2 * (8 * b.device + b.function_);
            Read(s'.tables.mem, ctx, i) == pml4 + 1 && Read(s'.tables.mem, ctx, i + 1) == 2 + 256 * (s.nextDomain + 1)
  {
    var ctx, i, d := s.busContext[b.bus], 2 * CtxIndex(b), s.nextDomain + 1;
    IndexInNumbers(b);
    DivIs(d, DOMAINS, 0, d);
    hide CtxIndex;
    TwoWords(s.tables.mem, ctx, i, pml4 + 1, 2 + d * 256);
  }

  lemma IndexInNumbers(b: Bdf)
    requires OnBus(b)
    ensures CtxIndex(b) == 8 * b.device + b.function_
  {
    DivIs(b.device, 32, 0, b.device);
    DivIs(b.function_, 8, 0, b.function_);
  }

  lemma TwoWords(m: Mem, page: nat, i: nat, x: nat, y: nat)
    requires i < 511
    ensures var m' := Write(Write(m, page, i, x), page, i + 1, y); Read(m', page, i) == x && Read(m', page, i + 1) == y
  {
  }

  lemma HasContext(s: State, uses: Uses, b: Bdf)
    requires Good(s, uses) && IsBdf(b) && ContextOf(s, b).Some?
    ensures |s.busContext| == 256 && s.busContext[b.bus] != 0
  {
    assert BusOk(s, uses, b.bus);
  }

  lemma DomainKept(s: State, b: Bdf, ranges: seq<Range>)
    requires |s.busContext| == 256 && IsBdf(b)
    ensures WithContext(s.(tables := MapAll(Alloc(s.tables).0, Alloc(s.tables).1, PagesOf(ranges))), b.bus).nextDomain == s.nextDomain
    ensures |WithContext(s.(tables := MapAll(Alloc(s.tables).0, Alloc(s.tables).1, PagesOf(ranges))), b.bus).busContext| == 256
  {
    hide MapAll, PagesOf;
  }

  /** `assign_device`, for any ranges below 2^48.  The device's entry now leads to a new
      domain that translates, each to itself, exactly the pages counted from each range's
      first page.  Every other entry, on this bus or another, and everything it translates
      is as it was. */
  lemma AssignExact(s: State, uses: Uses, b: Bdf, ranges: seq<Range>, s': State) returns (uses': Uses)
    requires Good(s, uses) && Enough(s, b, ranges) && Below48(ranges) && s.nextDomain + 1 < DOMAINS
    requires s' == Assign(s, b, ranges)
    ensures Good(s', uses') && OthersSame(s, s', b) && s'.iotlb == s.iotlb
    ensures ContextOf(s', b) == Some(Context(s.tables.free[0], s.nextDomain + 1))
    ensures TranslatesRanges(s'.tables.mem, s.tables.free[0], ranges)
    ensures AllAligned(ranges) ==> forall v: nat | v < VA_LIMIT ::
              Walk(s'.tables.mem, s.tables.free[0], v) == if InRanges(ranges, v) then Some(v) else None
    ensures AllWritable(s'.tables.mem, s.tables.free[0])
    ensures OnBus(b) ==> HasWords(s', b.bus, b.device, b.function_, s.tables.free[0] + 1, 2 + 256 * (s.nextDomain + 1))
  {
    hide Walk, BigAt, Slot, Good, PagesOf, Identity, Below48, InReach, OthersSame, ContextOf, Assign, OnRanges, InRanges, AllAligned,
         AllWritable, HasWords;
    Below48InReach(ranges);
    uses' := AssignBuilds(s, uses, b, ranges, s');
    GoodIsWritable(s', uses', b);
    if OnBus(b) { AssignedWords(s, uses', b, ranges, s'); }
    IdentityIsRanges(s'.tables.mem, s.tables.free[0], ranges);
    if AllAligned(ranges) {
      forall v: nat | v < VA_LIMIT ensures OnRanges(ranges, v) <==> InRanges(ranges, v) { AlignedRangesAreExact(ranges, v); }
    }
  }

  /** The pages counted for a page-aligned range are exactly those that hold a byte of it. */
  lemma AlignedRangeIsExact(r: Range, v: nat)
    requires r.base % PAGE == 0
    ensures OnRange(r, v) <==> OnPageOf(r, v)
  {
    if OnRange(r, v) {
      var x := if r.base >= v / PAGE * PAGE then r.base else v / PAGE * PAGE;
      assert InRange(r, x) && PageNo(x) == PageNo(v);
    }
    if OnPageOf(r, v) {
      var x: nat :| InRange(r, x) && PageNo(x) == PageNo(v);
      assert x / PAGE < r.base / PAGE + PageCount(r.len);
    }
  }

  /** Every byte of a range is mapped if and only if the range, from the start of its
      first page, fits in the pages counted for its length. */
  lemma RangeMappedIff(r: Range)
    requires r.len > 0
    ensures (forall v: nat :: r.base <= v < r.base + r.len ==> OnRange(r, v)) <==>
            r.base % PAGE + r.len <= PageCount(r.len) * PAGE
  {
    var n, last := PageCount(r.len), r.base + r.len - 1;
    if r.base % PAGE + r.len <= n * PAGE {
      forall v: nat | r.base <= v < r.base + r.len ensures OnRange(r, v) { LastPage(r, v); }
    } else {
      FirstMissed(r);
      assert r.base <= last < r.base + r.len && !OnRange(r, last);
    }
  }

  lemma LastPage(r: Range, v: nat)
    requires r.base % PAGE + r.len <= PageCount(r.len) * PAGE && r.base <= v < r.base + r.len
    ensures OnRange(r, v)
  {
    var n := PageCount(r.len);
    assert v < r.base / PAGE * PAGE + n * PAGE;
    assert v / PAGE < r.base / PAGE + n;
  }

  lemma FirstMissed(r: Range)
    requires r.len > 0 && r.base % PAGE + r.len > PageCount(r.len) * PAGE
    ensures !OnRange(r, r.base + r.len - 1)
  {
    var n, last := PageCount(r.len), r.base + r.len - 1;
    assert last >= r.base / PAGE * PAGE + n * PAGE;
    assert last / PAGE >= r.base / PAGE + n;
  }

  /** A range of one page's length that starts inside a page: its last bytes are left out. */
  lemma UnalignedTailIsMissed(s: State, uses: Uses, b: Bdf, s': State)
    requires Good(s, uses) && Enough(s, b, [Range(0x800, 0x1000)]) && s.nextDomain + 1 < DOMAINS
    requires s' == Assign(s, b, [Range(0x800, 0x1000)])
    ensures Walk(s'.tables.mem, s.tables.free[0], 0x1000) == None && 0x800 <= 0x1000 < 0x800 + 0x1000
  {
    var r := Range(0x800, 0x1000);
    hide Walk, BigAt, Slot, Good, OthersSame, ContextOf, Assign, Enough;
    var uses' := AssignExact(s, uses, b, [r], s');
    assert !OnRanges([r], 0x1000);
  }

  /** Stages two and three together. */
  lemma Hooked(s: State, uses: Uses, b: Bdf, pml4: nat, s': State) returns (uses': Uses, s1: State)
    requires Good(s, uses) && IsBdf(b) && (s.busContext[b.bus] == 0 ==> s.tables.free != []) && s.nextDomain + 1 < DOMAINS
    requires IsRoot(uses, pml4) && Detached(s, pml4) && s' == Install(WithContext(s, b.bus), b, pml4)
    ensures Good(s', uses') && s'.iotlb == s.iotlb && FromPool(s.tables, uses, s'.tables, uses')
    ensures ContextOf(s', b) == Some(Context(pml4, s.nextDomain + 1)) && OthersSame(s, s', b)
    ensures forall v: nat :: Walk(s'.tables.mem, pml4, v) == Walk(s.tables.mem, pml4, v) && BigAt(s'.tables.mem, pml4, v) == BigAt(s.tables.mem, pml4, v)
  {
    hide Walk, BigAt, Slot;
    uses' := ContextBuilt(s, uses, b.bus);
    s1 := WithContext(s, b.bus);
    DetachedStays(s, s1, pml4);
    InstallGood(s1, uses', b, pml4, s');
    OthersTrans(s, s1, s', b);
    SameWalksTrans(s.tables.mem, s1.tables.mem, s'.tables.mem, uses, uses');
  }

  // ----- Revoking ---------------------------------------------------------

  lemma RevokedSlot(s: State, uses: Uses, b: Bdf, bus: nat, i: nat)
    requires Good(s, uses) && IsBdf(b) && bus < 256 && i < 256
    ensures var s' := Revoke(s, b).0;
            && Slot(s'.tables.mem, s.root, bus, i) ==
               (if (bus, i) == (b.bus, DevFn(b)) then None else Slot(s.tables.mem, s.root, bus, i))
            && BusOk(s', uses, bus)
  {
    hide Slots, AllApart, Cache, SlotOk, Shape, FreeOk;
    var m, m' := s.tables.mem, Revoke(s, b).0.tables.mem;
    assert BusOk(s, uses, bus) && BusOk(s, uses, b.bus);
    if s.busContext[bus] != 0 { ContextEntryDecodes(s.busContext[bus]); }
    if s.busContext[b.bus] != 0 {
      assert forall p :: p in uses && p != s.busContext[b.bus] ==> m'[p] == m[p];
    }
  }

  lemma SameWalksSelf(m: Mem, uses: Uses)
    ensures SameWalks(m, m, uses)
  {
    hide Walk, BigAt;
  }

  lemma RevokeTables(s: State, uses: Uses, b: Bdf)
    requires Good(s, uses) && IsBdf(b)
    ensures var t := Revoke(s, b).0.tables;
            Inv(t, uses) && SameWalks(s.tables.mem, t.mem, uses)
  {
    hide Inv, SameWalks, Write, Slots, AllApart, Cache;
    assert BusOk(s, uses, b.bus);
    SameWalksSelf(s.tables.mem, uses);
    if s.busContext[b.bus] != 0 { TwoWrites(s.tables, uses, s.busContext[b.bus], 2 * CtxIndex(b), 0, 0); }
  }

  lemma RevokedEntries(s: State, uses: Uses, b: Bdf)
    requires Good(s, uses) && IsBdf(b) && SameWalks(s.tables.mem, Revoke(s, b).0.tables.mem, uses)
    ensures Buses(Revoke(s, b).0, uses) && OthersSame(s, Revoke(s, b).0, b) && ContextOf(Revoke(s, b).0, b) == None
  {
    hide Walk, BigAt, Slot;
    var s' := Revoke(s, b).0;
    RevokedSlot(s, uses, b, b.bus, DevFn(b));
    forall bus | 0 <= bus < 256 ensures BusOk(s', uses, bus) {
      RevokedSlot(s, uses, b, bus, 0);
    }
    forall bus, i | 0 <= bus < 256 && 0 <= i < 256 && (bus, i) != (b.bus, DevFn(b)) ensures SameEntry(s, s', bus, i) {
      RevokedSlot(s, uses, b, bus, i);
      assert SlotFine(s, uses, bus, i);
    }
  }

  /** `revoke_device`.  Whatever happened before, the device's entry is gone and no
      cached translation can serve it; the result says whether there was an entry;
      every other entry is as it was. */
  lemma RevokeExact(s: State, uses: Uses, b: Bdf, s': State)
    requires Good(s, uses) && IsBdf(b) && s' == Revoke(s, b).0
    ensures Good(s', uses) && ContextOf(s', b) == None && OthersSame(s, s', b)
    ensures Revoke(s, b).1 == ContextOf(s, b).Some?
    ensures ContextOf(s, b).Some? ==> forall k :: k in s'.iotlb <==> k in s.iotlb && k.0 != ContextOf(s, b).value.domain
    ensures OnBus(b) && ContextOf(s, b).Some? ==> HasWords(s', b.bus, b.device, b.function_, 0, 0)
  {
    hide Walk, BigAt, Slot, HasWords;
    if OnBus(b) && ContextOf(s, b).Some? { RevokedWords(s, uses, b, s'); }
    RevokeTables(s, uses, b);
    RevokedEntries(s, uses, b);
    RevokeFound(s, uses, b);
    OneEntryGood(s, uses, s', b);
  }

  lemma RevokedWords(s: State, uses: Uses, b: Bdf, s': State)
    requires Good(s, uses) && OnBus(b) && s' == Revoke(s, b).0 && ContextOf(s, b).Some?
    ensures HasWords(s', b.bus, b.device, b.function_, 0, 0)
  {
    hide Walk, BigAt, Slots, AllApart, Cache, SlotOk, Shape, Open, FreeOk;
    HasContext(s, uses, b);
    BusWord(s, uses, b.bus);
    assert BusOk(s, uses, b.bus);
    ContextEntryDecodes(s.busContext[b.bus]);
  }

  lemma RevokeFound(s: State, uses: Uses, b: Bdf)
    requires Good(s, uses) && IsBdf(b)
    ensures var (s', found) := Revoke(s, b);
            && found == ContextOf(s, b).Some?
            && s' == s.(tables := s'.tables, iotlb := s'.iotlb)
            && (forall k :: k in s'.iotlb ==> k in s.iotlb && s'.iotlb[k] == s.iotlb[k])
            && (found ==> forall k :: k in s'.iotlb <==> k in s.iotlb && k.0 != ContextOf(s, b).value.domain)
  {
    assert BusOk(s, uses, b.bus);
    if s.busContext[b.bus] != 0 { ContextEntryDecodes(s.busContext[b.bus]); }
  }

  // ----- The translation cache --------------------------------------------

  /** In a good state the cache never adds reach: what a device can reach is exactly
      what its tables translate. */
  lemma CacheAddsNothing(s: State, uses: Uses, b: Bdf, v: nat, p: nat)
    requires Good(s, uses) && IsBdf(b) && v < VA_LIMIT
    ensures Reaches(s, b, v, p) <==>
            ContextOf(s, b).Some? && Walk(s.tables.mem, ContextOf(s, b).value.root, v) == Some(p)
  {
    assert CacheFine(s, b.bus, DevFn(b));
  }

  lemma DmaGood(s: State, uses: Uses, b: Bdf, v: nat)
    requires Good(s, uses) && IsBdf(b) && v < VA_LIMIT
    ensures Good(Dma(s, b, v), uses) && Dma(s, b, v) == s.(iotlb := Dma(s, b, v).iotlb)
  {
    var s' := Dma(s, b, v);
    forall bus | 0 <= bus < 256 ensures BusOk(s', uses, bus) {
      assert BusOk(s, uses, bus);
    }
    forall bus, i | 0 <= bus < 256 && 0 <= i < 256 ensures SlotFine(s', uses, bus, i) && CacheFine(s', bus, i) {
      assert SlotFine(s, uses, bus, i);
      DmaCache(s, uses, b, v, bus, i);
    }
    forall bus, i, bus', i' | 0 <= bus < 256 && 0 <= i < 256 && 0 <= bus' < 256 && 0 <= i' < 256 && (bus, i) != (bus', i')
      ensures Apart(s', bus, i, bus', i')
    {
      assert Apart(s, bus, i, bus', i');
    }
    assert SlotFine(s, uses, b.bus, DevFn(b));
  }

  lemma DmaCache(s: State, uses: Uses, b: Bdf, v: nat, bus: nat, i: nat)
    requires Good(s, uses) && IsBdf(b) && v < VA_LIMIT && bus < 256 && i < 256
    ensures CacheFine(Dma(s, b, v), bus, i)
  {
    hide Walk, BigAt, Slot;
    assert CacheFine(s, bus, i);
    if (bus, i) != (b.bus, DevFn(b)) {
      assert Apart(s, bus, i, b.bus, DevFn(b));
    } else if ContextOf(s, b).Some? {
      PageWalks(s.tables.mem, ContextOf(s, b).value.root, v);
    }
  }

  lemma PageWalks(m: Mem, root: nat, v: nat)
    requires v < VA_LIMIT
    ensures Walk(m, root, v).Some? ==> forall u: nat | u < VA_LIMIT && u / PAGE == v / PAGE ::
              Walk(m, root, u) == Some(Walk(m, root, v).value / PAGE * PAGE + u % PAGE)
  {
    if Walk(m, root, v).Some? {
      forall u: nat | u < VA_LIMIT && u / PAGE == v / PAGE
        ensures Walk(m, root, u) == Some(Walk(m, root, v).value / PAGE * PAGE + u % PAGE)
      {
        WalkIsPaged(m, root, v, u);
      }
    }
  }

  /** Two addresses in one page translate into one frame, at their own offsets. */
  lemma WalkIsPaged(m: Mem, root: nat, v: nat, u: nat)
    requires v < VA_LIMIT && u < VA_LIMIT && u / PAGE == v / PAGE && Walk(m, root, v).Some?
    ensures Walk(m, root, u) == Some(Walk(m, root, v).value / PAGE * PAGE + u % PAGE)
  {
    IndicesAreThePage(v, u);
    var e3 := Read(m, Frame(Read(m, root, I4(v))), I3(v));
    var e2 := Read(m, Frame(e3), I2(v));
    var e1 := Read(m, Frame(e2), I1(v));
    if Huge(e3) {
      Rebase1G(e3 % ADDR_LIMIT / 0x4000_0000, v, u);
    } else if Huge(e2) {
      Rebase2M(e2 % ADDR_LIMIT / BIG, v, u);
    } else {
      Rebase4K(e1 % ADDR_LIMIT / PAGE, v, u);
    }
  }

  lemma Rebase4K(k: nat, v: nat, u: nat)
    requires u / 4096 == v / 4096
    ensures k * 4096 + u % 4096 == (k * 4096 + v % 4096) / 4096 * 4096 + u % 4096
  {
  }

  lemma Rebase2M(k: nat, v: nat, u: nat)
    requires u / 4096 == v / 4096
    ensures k * BIG + u % BIG == (k * BIG + v % BIG) / 4096 * 4096 + u % 4096
  {
    var q := v / 4096;
    assert v % BIG == q % 512 * 4096 + v % 4096 && u % BIG == q % 512 * 4096 + u % 4096;
    Rebase4K(k * 512 + q % 512, v, u);
  }

  lemma Rebase1G(k: nat, v: nat, u: nat)
    requires u / 4096 == v / 4096
    ensures k * 0x4000_0000 + u % 0x4000_0000 == (k * 0x4000_0000 + v % 0x4000_0000) / 4096 * 4096 + u % 4096
  {
    var q := v / 4096;
    assert v % 0x4000_0000 == q % 0x40000 * 4096 + v % 4096 && u % 0x4000_0000 == q % 0x40000 * 4096 + u % 4096;
    Rebase4K(k * 0x40000 + q % 0x40000, v, u);
  }

  lemma EvictGood(s: State, uses: Uses, keep: set<(nat, nat)>)
    requires Good(s, uses)
    ensures Good(Evict(s, keep), uses) && Evict(s, keep) == s.(iotlb := Evict(s, keep).iotlb)
  {
    var s' := Evict(s, keep);
    forall bus | 0 <= bus < 256 ensures BusOk(s', uses, bus) {
      assert BusOk(s, uses, bus);
    }
    StepGood(s, uses, s', uses, 0, 0);
  }

  /** Two device numbers share a context entry exactly when they agree modulo what
      PCI can address; so numbers PCI can address never collide. */
  lemma EntriesCollide(a: Bdf, b: Bdf)
    requires IsBdf(a) && IsBdf(b)
    ensures (a.bus, CtxIndex(a)) == (b.bus, CtxIndex(b)) <==>
            a.bus == b.bus && a.device % 32 == b.device % 32 && a.function_ % 8 == b.function_ % 8
    ensures OnBus(a) && OnBus(b) ==> ((a.bus, CtxIndex(a)) == (b.bus, CtxIndex(b)) <==> a == b)
    ensures OnBus(a) ==> CtxIndex(a) == 8 * a.device + a.function_
    ensures CtxIndex(a) == DevFn(a) && CtxIndex(b) == DevFn(b)
  {
    assert CtxIndex(a) / 8 == a.device % 32 && CtxIndex(b) / 8 == b.device % 32;
  }

  // ----- Start-up ---------------------------------------------------------

  /** `init`: an empty root table, so every device is denied. */
  function Init(t: Tables): State {
    State(Alloc(t).0, Alloc(t).1, seq(256, _ => 0), 0, map[])
  }

  lemma InitGood(t: Tables)
    requires FreeOk(t.free, map[]) && t.free != []
    ensures var s := Init(t); Good(s, map[s.root := RootTable])
    ensures forall b, v: nat, p: nat :: IsBdf(b) ==> !Reaches(Init(t), b, v, p)
  {
    var s := Init(t);
    var uses: Uses := map[s.root := RootTable];
    assert forall i :: 0 <= i < 512 ==> s.tables.mem[s.root][i] == 0;
    assert forall bus, i | 0 <= bus < 256 && 0 <= i < 256 :: Slot(s.tables.mem, s.root, bus, i) == None;
    assert Inv(s.tables, uses);
    forall bus, i, bus', i' | 0 <= bus < 256 && 0 <= i < 256 && 0 <= bus' < 256 && 0 <= i' < 256
      ensures Apart(s, bus, i, bus', i')
    {
      assert Slot(s.tables.mem, s.root, bus, i) == None;
    }
  }

  // ----- The driver as it runs --------------------------------------------

  /** The driver's static state, updated in place. */
  class Unit {
    var mem: Mem
    var free: seq<nat>
    var rootTable: nat
    var busContext: seq<nat>
    var nextDomain: nat
    var iotlb: map<(nat, nat), nat>

    ghost function View(): State
      reads this
    {
      State(Tables(mem, free), rootTable, busContext, nextDomain, iotlb)
    }

    ghost predicate Shape()
      reads this
    {
      |busContext| == 256
    }

    constructor (memory: Mem, pages: seq<nat>)
      ensures Shape() && View() == Init(Tables(memory, pages))
    {
      mem, free, busContext, nextDomain, iotlb := memory, pages, seq(256, _ => 0), 0, map[];
      new;
      rootTable := AllocPage();
    }

    method AllocPage() returns (page: nat)
      modifies this
      ensures View() == old(View()).(tables := Alloc(old(View().tables)).0) && page == Alloc(old(View().tables)).1
    {
      if free == [] {
        page := 0;
      } else {
        page := free[0];
        mem, free := mem[page := ZeroPage()], free[1..];
      }
    }

    method EnsureTable(t: nat, i: nat) returns (child: nat)
      requires i < 512
      modifies this
      ensures View() == old(View()).(tables := Ensure(old(View().tables), t, i)) && child == Child(View().tables, t, i)
    {
      if Read(mem, t, i) % 2 == 0 {
        var page := AllocPage();
        mem := Write(mem, t, i, page + 3);
      }
      child := Frame(Read(mem, t, i));
    }

    method MapPage(pml4: nat, v: nat, pa: nat)
      modifies this
      ensures View() == old(View()).(tables := Map4K(old(View().tables), pml4, v, pa))
    {
      var pdpt := EnsureTable(pml4, I4(v));
      var pd := EnsureTable(pdpt, I3(v));
      var pt := EnsureTable(pd, I2(v));
      mem := Write(mem, pt, I1(v), Frame(pa) + 3);
    }

    /** The two loops of `assign_device`. */
    method MapRanges(pml4: nat, ranges: seq<Range>)
      modifies this
      ensures View() == old(View()).(tables := MapAll(old(View().tables), pml4, PagesOf(ranges)))
    {
      hide Map4K;
      assert PagesOf(ranges[..0]) == [];
      for k := 0 to |ranges|
        invariant View() == old(View()).(tables := MapAll(old(View().tables), pml4, PagesOf(ranges[..k])))
      {
        MapRange(pml4, ranges[k], PagesOf(ranges[..k]), old(View().tables));
        assert ranges[..k + 1][..k] == ranges[..k];
      }
      assert ranges[..|ranges|] == ranges;
    }

    method MapRange(pml4: nat, r: Range, ghost done: seq<nat>, ghost t: Tables)
      requires View().tables == MapAll(t, pml4, done)
      modifies this
      ensures View() == old(View()).(tables := MapAll(t, pml4, done + RangePages(r)))
    {
      hide Map4K;
      var pages := (r.len + 4095) % WORD / PAGE;
      assert done + RangePages(r)[..0] == done;
      for p := 0 to pages
        invariant View() == old(View()).(tables := MapAll(t, pml4, done + RangePages(r)[..p]))
      {
        var addr := (r.base + p * PAGE) % WORD;
        ghost var next := done + RangePages(r)[..p + 1];
        assert next[|next| - 1] == addr && next[..|next| - 1] == done + RangePages(r)[..p];
        MapPage(pml4, addr, addr);
      }
      assert RangePages(r)[..pages] == RangePages(r);
    }

    method HookBus(bus: nat) returns (context: nat)
      requires Shape() && bus < 256
      modifies this
      ensures Shape() && View() == WithContext(old(View()), bus) && context == busContext[bus]
    {
      if busContext[bus] == 0 {
        var page := AllocPage();
        busContext := busContext[bus := page];
        mem := Write(mem, rootTable, 2 * bus, page + 1);
      }
      context := busContext[bus];
    }

    method AssignDevice(b: Bdf, ranges: seq<Range>) returns (domain: nat)
      requires Shape() && IsBdf(b)
      modifies this
      ensures Shape() && View() == Assign(old(View()), b, ranges) && domain == nextDomain
    {
      hide MapAll, WithContext;
      var pml4 := AllocPage();
      MapRanges(pml4, ranges);
      var context := HookBus(b.bus);
      nextDomain := (nextDomain + 1) % DOMAINS;
      domain := nextDomain;
      mem := Write(mem, context, 2 * CtxIndex(b), pml4 + 1);
      mem := Write(mem, context, 2 * CtxIndex(b) + 1, 2 + domain * 256);
    }

    method RevokeDevice(b: Bdf) returns (found: bool)
      requires Shape() && IsBdf(b)
      modifies this
      ensures Shape() && (View(), found) == Revoke(old(View()), b)
    {
      var context := busContext[b.bus];
      if context == 0 { return false; }
      var low := Read(mem, context, 2 * CtxIndex(b));
      if low % 2 == 0 { return false; }
      var domain := Read(mem, context, 2 * CtxIndex(b) + 1) / 256 % DOMAINS;
      mem := Write(mem, context, 2 * CtxIndex(b), 0);
      mem := Write(mem, context, 2 * CtxIndex(b) + 1, 0);
      iotlb := map k | k in iotlb && k.0 != domain :: iotlb[k];
      found := true;
    }

    /** The driver looks in its own table of context pages; the hardware starts from
        the root table.  In a good state both find the same. */
    method ContextEntryPresent(b: Bdf) returns (present: bool)
      requires Shape() && IsBdf(b)
      ensures (exists uses :: Good(View(), uses)) ==> present == ContextOf(View(), b).Some?
    {
      var context := busContext[b.bus];
      present := context != 0 && Read(mem, context, 2 * CtxIndex(b)) % 2 == 1;
      if uses :| Good(View(), uses) {
        assert BusOk(View(), uses, b.bus);
        if context != 0 { ContextEntryDecodes(context); }
      }
    }
  }
}
