/** Device grants: the authority graph drives the IOMMU.

    The law of this layer is that software and silicon do not drift apart: what a
    device can reach through its live context entry, cached translations included,
    is always something the graph says it may reach. */
module Authority {
  import opened Options
  import opened PageTables
  import opened Arith
  import opened Iommu
  import opened AuthorityGraph
  import opened Starvation

  const MAX_GRANTS: nat := 32

  datatype Auth = Auth(graph: Graph, hw: State)

  function PageRanges(es: seq<Entry>): seq<Range> {
    seq(|es|, i requires 0 <= i < |es| => Range(es[i].page, 4096))
  }

  /** What the graph projects for the device, cut to the fixed output array. */
  function Projected(g: Graph, b: Bdf): seq<Entry> { Take(Projection(g, PciDevice(b)), MAX_GRANTS) }

  function DeviceGrant(b: Bdf, base: nat, len: nat): Grant { Grant(PciDevice(b), base, len, true, false) }

  /** `grant_device`: second component says whether hardware was programmed. */
  function Granted(s: Auth, b: Bdf, base: nat, len: nat): (Auth, bool)
    requires |s.hw.busContext| == 256 && IsBdf(b)
  {
    if !HasRoom(s.graph) then (s, false) else
    var g := AddGrant(s.graph, DeviceGrant(b, base, len));
    var es := Projected(g, b);
    if es == [] then (Auth(g, s.hw), false) else (Auth(g, Assign(s.hw, b, PageRanges(es))), true)
  }

  /** `revoke_device`: second component says whether graph and hardware both had something. */
  function Revoked(s: Auth, b: Bdf, base: nat): (Auth, bool)
    requires |s.hw.busContext| == 256 && IsBdf(b)
  {
    var (hw, found) := Revoke(s.hw, b);
    (Auth(DropGrants(s.graph, PciDevice(b), base), hw), CountMatches(s.graph, PciDevice(b), base) > 0 && found)
  }

  // ----- The law ----------------------------------------------------------

  /** Everything `b` can reach is identity-mapped and granted. */
  ghost predicate Within(s: Auth, b: Bdf)
    requires IsBdf(b)
  {
    forall v: nat, p: nat :: v < VA_LIMIT && Reaches(s.hw, b, v, p) ==> p == v && IsReachable(s.graph, PciDevice(b), v)
  }

  /** ... and everything granted can be reached. */
  ghost predicate Exact(s: Auth, b: Bdf)
    requires IsBdf(b)
  {
    forall v: nat, p: nat :: v < VA_LIMIT ==>
      (Reaches(s.hw, b, v, p) <==> p == v && IsReachable(s.graph, PciDevice(b), v))
  }

  ghost predicate AuthInv(s: Auth, uses: Uses) {
    && Good(s.hw, uses)
    && (forall b :: OnBus(b) ==> MappableFor(s.graph, PciDevice(b)))
    && (forall b :: OnBus(b) ==> Within(s, b))
  }

  lemma {:induction false} SinglePages(es: seq<Entry>)
    requires forall k :: 0 <= k < |es| ==> es[k].page < VA_LIMIT
    ensures |PagesOf(PageRanges(es))| == |es|
    ensures forall k :: 0 <= k < |es| ==> PagesOf(PageRanges(es))[k] == es[k].page
  {
    if es != [] {
      var init, last := es[..|es| - 1], es[|es| - 1];
      SinglePages(init);
      assert PageRanges(es)[..|es| - 1] == PageRanges(init);
      var r := Range(last.page, 4096);
      assert RangePages(r) == [last.page] by {
        assert (r.len + 4095) % WORD / PAGE == 1;
        assert r.base % WORD == last.page;
      }
    }
  }

  lemma CoveredIsOnPage(es: seq<Entry>, v: nat)
    requires AllMappable(es)
    ensures Covered(PagesOf(PageRanges(es)), v) <==> OnPage(es, v)
    ensures InReach(PageRanges(es))
  {
    SinglePages(es);
    var ps := PagesOf(PageRanges(es));
    if OnPage(es, v) {
      var k :| 0 <= k < |es| && es[k].page / PAGE == v / PAGE;
      assert ps[k] / PAGE == v / PAGE;
    }
    if Covered(ps, v) {
      var k :| 0 <= k < |ps| && ps[k] / PAGE == v / PAGE;
      assert es[k].page / PAGE == v / PAGE;
    }
  }

  lemma TakeOnPage(es: seq<Entry>, cap: nat, v: nat)
    requires AllMappable(es)
    ensures OnPage(Take(es, cap), v) ==> OnPage(es, v)
    ensures |es| <= cap ==> (OnPage(Take(es, cap), v) <==> OnPage(es, v))
    ensures AllMappable(Take(es, cap))
  {
    var t := Take(es, cap);
    if OnPage(t, v) {
      var k :| 0 <= k < |t| && t[k].page / PAGE == v / PAGE;
      assert es[k] == t[k];
    }
  }

  /** The pages and the domain number that programming the entries takes are there. */
  ghost predicate CanAssign(hw: State, b: Bdf, es: seq<Entry>) {
    Enough(hw, b, PageRanges(es)) && hw.nextDomain + 1 < DOMAINS
  }

  /** ... for the entries a grant would program, if it gets that far. */
  ghost predicate Ready(s: Auth, b: Bdf, base: nat, len: nat) {
    var es := Projected(AddGrant(s.graph, DeviceGrant(b, base, len)), b);
    HasRoom(s.graph) && es != [] ==> CanAssign(s.hw, b, es)
  }

  /** A simple sufficient supply, whatever is granted. */
  lemma PlentyIsReady(s: Auth, b: Bdf, base: nat, len: nat)
    requires |s.hw.busContext| == 256 && OnBus(b) && Mappable(DeviceGrant(b, base, len))
    requires MappableFor(s.graph, PciDevice(b))
    requires |s.hw.tables.free| >= 3 * MAX_GRANTS + 2 && s.hw.nextDomain + 1 < DOMAINS
    ensures Ready(s, b, base, len)
  {
    hide Projection, Mappable, PagesOf, PageRanges;
    if HasRoom(s.graph) {
      var g := AddGrant(s.graph, DeviceGrant(b, base, len));
      var es := Projected(g, b);
      assert MappableFor(g, PciDevice(b));
      ProjectionIsReach(g, PciDevice(b), 0);
      TakeOnPage(Projection(g, PciDevice(b)), MAX_GRANTS, 0);
      SinglePages(es);
      ThreeEachIsEnough(s.hw, b, PageRanges(es));
    }
  }

  /** Devices other than `b` keep their reach, in hardware and in the graph. */
  ghost predicate Undisturbed(s: Auth, s': Auth, b: Bdf)
    requires IsBdf(b)
  {
    forall c :: OnBus(c) && c != b ==>
      && (forall v: nat, p: nat :: v < VA_LIMIT ==> (Reaches(s'.hw, c, v, p) <==> Reaches(s.hw, c, v, p)))
      && (forall v :: IsReachable(s'.graph, PciDevice(c), v) <==> IsReachable(s.graph, PciDevice(c), v))
  }

  lemma OthersKeepReach(hw: State, uses: Uses, hw': State, uses': Uses, b: Bdf, c: Bdf, v: nat, p: nat)
    requires Good(hw, uses) && Good(hw', uses') && OnBus(b) && OnBus(c) && b != c && v < VA_LIMIT
    requires OthersSame(hw, hw', b)
    ensures Reaches(hw', c, v, p) <==> Reaches(hw, c, v, p)
  {
    hide Walk, BigAt, Slot;
    EntriesCollide(b, c);
    assert SameEntry(hw, hw', c.bus, DevFn(c));
    CacheAddsNothing(hw, uses, c, v, p);
    CacheAddsNothing(hw', uses', c, v, p);
  }

  // ----- Granting ---------------------------------------------------------

  /** After programming the hardware with a set of mappable entries, the device
      reaches exactly their pages. */
  lemma AssignedReach(hw: State, uses: Uses, b: Bdf, es: seq<Entry>, hw': State) returns (uses': Uses)
    requires Good(hw, uses) && IsBdf(b) && AllMappable(es) && CanAssign(hw, b, es)
    requires hw' == Assign(hw, b, PageRanges(es))
    ensures Good(hw', uses') && OthersSame(hw, hw', b)
    ensures forall v: nat, p: nat :: v < VA_LIMIT ==> (Reaches(hw', b, v, p) <==> p == v && OnPage(es, v))
  {
    hide Walk, BigAt, Slot, Assign, OnPage, PagesOf, PageRanges;
    SinglePages(es);
    CoveredIsOnPage(es, 0);
    uses' := AssignBuilds(hw, uses, b, PageRanges(es), hw');
    forall v: nat, p: nat | v < VA_LIMIT ensures Reaches(hw', b, v, p) <==> p == v && OnPage(es, v) {
      CoveredIsOnPage(es, v);
      CacheAddsNothing(hw', uses', b, v, p);
    }
  }

  /** `grant_device`: the law holds again, other devices are undisturbed, and when
      the projection fits the output array software and hardware agree exactly. */
  lemma GrantKeeps(s: Auth, uses: Uses, b: Bdf, base: nat, len: nat, s': Auth) returns (uses': Uses)
    requires AuthInv(s, uses) && OnBus(b) && Mappable(DeviceGrant(b, base, len)) && Ready(s, b, base, len)
    requires s' == Granted(s, b, base, len).0
    ensures AuthInv(s', uses') && Undisturbed(s, s', b)
    ensures Granted(s, b, base, len).1 && |Projection(s'.graph, PciDevice(b))| <= MAX_GRANTS ==> Exact(s', b)
  {
    hide Walk, BigAt, Slot, Assign, Projection, Reaches, IsReachable, Good, Mappable;
    var x := DeviceGrant(b, base, len);
    if !HasRoom(s.graph) {
      uses' := uses;
    } else {
      var g := AddGrant(s.graph, x);
      var es := Projected(g, b);
      GraphGrant(s, b, base, len, g);
      ProjectionIsReach(g, PciDevice(b), 0);
      TakeOnPage(Projection(g, PciDevice(b)), MAX_GRANTS, 0);
      if es == [] {
        uses' := uses;
        GrantedOnly(s, s', b);
      } else {
        uses' := AssignedReach(s.hw, uses, b, es, s'.hw);
        GrantedAndAssigned(s, uses, s', uses', b, es);
      }
    }
  }

  /** The graph half of a grant. */
  /** The device has a grant of at least one byte. */
  ghost predicate HasBytes(g: Graph, b: Bdf) {
    exists i :: 0 <= i < |g| && g[i].Some? && g[i].value.principal == PciDevice(b) && g[i].value.len > 0
  }

  ghost predicate SmallLengths(g: Graph) {
    forall i :: 0 <= i < |g| && g[i].Some? ==> g[i].value.len + 4095 < 0x1_0000_0000_0000_0000
  }

  lemma ProjectsIff(g: Graph, b: Bdf)
    requires SmallLengths(g)
    ensures Projection(g, PciDevice(b)) != [] <==> HasBytes(g, b)
  {
    var p := PciDevice(b);
    var es := Projection(g, p);
    if es != [] {
      ProjectedIff(g, p, es[0]);
      assert es[0] in es;
    }
    if HasBytes(g, b) {
      var i :| 0 <= i < |g| && g[i].Some? && g[i].value.principal == p && g[i].value.len > 0;
      var x := g[i].value;
      var e := Entry(x.base % 0x1_0000_0000_0000_0000, x.writable, x.executable);
      assert Stands(e, x, 0);
      ProjectedIff(g, p, e);
      assert StandsFor(e, g[i], p);
      assert e in es;
    }
  }

  /** `grant_device` programs the hardware exactly when the graph has room and the device
      then holds a grant of at least one byte. */
  lemma GrantProgramsIff(s: Auth, b: Bdf, base: nat, len: nat)
    requires |s.hw.busContext| == 256 && IsBdf(b) && SmallLengths(s.graph) && len + 4095 < 0x1_0000_0000_0000_0000
    ensures Granted(s, b, base, len).1 <==> HasRoom(s.graph) && (len > 0 || HasBytes(s.graph, b))
  {
    if HasRoom(s.graph) {
      hide Projection, Assign;
      var x, k := DeviceGrant(b, base, len), FirstFree(s.graph);
      var g := AddGrant(s.graph, x);
      assert g == s.graph[k := Some(x)] && s.graph[k].None?;
      assert SmallLengths(g);
      ProjectsIff(g, b);
      assert len > 0 ==> g[k].value.len > 0;
      if HasBytes(s.graph, b) {
        var i :| 0 <= i < |g| && s.graph[i].Some? && s.graph[i].value.principal == PciDevice(b) && s.graph[i].value.len > 0;
        assert g[i] == s.graph[i];
      }
    }
  }

  lemma GraphGrant(s: Auth, b: Bdf, base: nat, len: nat, g: Graph)
    requires HasRoom(s.graph) && Mappable(DeviceGrant(b, base, len)) && g == AddGrant(s.graph, DeviceGrant(b, base, len))
    requires forall c :: OnBus(c) ==> MappableFor(s.graph, PciDevice(c))
    ensures forall c :: OnBus(c) ==> MappableFor(g, PciDevice(c))
    ensures forall c, v :: IsReachable(s.graph, PciDevice(c), v) ==> IsReachable(g, PciDevice(c), v)
    ensures forall c, v :: c != b && IsReachable(g, PciDevice(c), v) ==> IsReachable(s.graph, PciDevice(c), v)
  {
    hide IsReachable, Mappable, Covers;
    forall c, v ensures IsReachable(s.graph, PciDevice(c), v) ==> IsReachable(g, PciDevice(c), v)
                ensures c != b && IsReachable(g, PciDevice(c), v) ==> IsReachable(s.graph, PciDevice(c), v)
    {
      GrantReach(s.graph, DeviceGrant(b, base, len), PciDevice(c), v);
    }
  }

  lemma GrantedOnly(s: Auth, s': Auth, b: Bdf)
    requires s'.hw == s.hw && (forall c :: OnBus(c) ==> Within(s, c)) && OnBus(b)
    requires forall c, v :: IsReachable(s.graph, PciDevice(c), v) ==> IsReachable(s'.graph, PciDevice(c), v)
    requires forall c, v :: c != b && IsReachable(s'.graph, PciDevice(c), v) ==> IsReachable(s.graph, PciDevice(c), v)
    ensures (forall c :: OnBus(c) ==> Within(s', c)) && Undisturbed(s, s', b)
  {
    hide Reaches, IsReachable;
    forall c | OnBus(c) ensures Within(s', c) {
      assert Within(s, c);
    }
  }

  lemma GrantedAndAssigned(s: Auth, uses: Uses, s': Auth, uses': Uses, b: Bdf, es: seq<Entry>)
    requires AuthInv(s, uses) && Good(s'.hw, uses') && OnBus(b) && OthersSame(s.hw, s'.hw, b)
    requires es == Projected(s'.graph, b)
    requires forall v: nat, p: nat :: v < VA_LIMIT ==> (Reaches(s'.hw, b, v, p) <==> p == v && OnPage(es, v))
    requires forall c :: OnBus(c) ==> MappableFor(s'.graph, PciDevice(c))
    requires forall c, v :: IsReachable(s.graph, PciDevice(c), v) ==> IsReachable(s'.graph, PciDevice(c), v)
    requires forall c, v :: c != b && IsReachable(s'.graph, PciDevice(c), v) ==> IsReachable(s.graph, PciDevice(c), v)
    ensures (forall c :: OnBus(c) ==> Within(s', c)) && Undisturbed(s, s', b)
    ensures |Projection(s'.graph, PciDevice(b))| <= MAX_GRANTS ==> Exact(s', b)
  {
    hide Walk, BigAt, Slot, Reaches, IsReachable, Projection, OnPage, Mappable;
    forall v: nat | v < VA_LIMIT
      ensures OnPage(es, v) ==> IsReachable(s'.graph, PciDevice(b), v)
      ensures |Projection(s'.graph, PciDevice(b))| <= MAX_GRANTS ==>
                (OnPage(es, v) <==> IsReachable(s'.graph, PciDevice(b), v))
    {
      ProjectionIsReach(s'.graph, PciDevice(b), v);
      TakeOnPage(Projection(s'.graph, PciDevice(b)), MAX_GRANTS, v);
    }
    forall c, v: nat, p: nat | OnBus(c) && c != b && v < VA_LIMIT
      ensures Reaches(s'.hw, c, v, p) <==> Reaches(s.hw, c, v, p)
    {
      OthersKeepReach(s.hw, uses, s'.hw, uses', b, c, v, p);
    }
    forall c | OnBus(c) ensures Within(s', c) {
      assert Within(s, c);
    }
  }

  // ----- Revoking ---------------------------------------------------------

  /** `revoke_device`: the device reaches nothing at all any more; the grants that
      start at `base` are gone from the graph; other devices are undisturbed. */
  lemma RevokeKeeps(s: Auth, uses: Uses, b: Bdf, base: nat, s': Auth)
    requires AuthInv(s, uses) && OnBus(b) && s' == Revoked(s, b, base).0
    ensures AuthInv(s', uses) && Undisturbed(s, s', b)
    ensures forall v: nat, p: nat :: !Reaches(s'.hw, b, v, p)
    ensures Revoked(s, b, base).1 <==>
            (exists i :: 0 <= i < |s.graph| && Matches(s.graph[i], PciDevice(b), base)) && ContextOf(s.hw, b).Some?
  {
    hide Walk, BigAt, Slot, IsReachable, Mappable;
    RevokeExact(s.hw, uses, b, s'.hw);
    CountIsFound(s.graph, PciDevice(b), base);
    forall c, v ensures c != b ==> (IsReachable(s'.graph, PciDevice(c), v) <==> IsReachable(s.graph, PciDevice(c), v)) {
      RevokeReach(s.graph, PciDevice(b), base, PciDevice(c), v);
    }
    forall c, v: nat, p: nat | OnBus(c) && c != b && v < VA_LIMIT
      ensures Reaches(s'.hw, c, v, p) <==> Reaches(s.hw, c, v, p)
    {
      OthersKeepReach(s.hw, uses, s'.hw, uses, b, c, v, p);
    }
    forall c | OnBus(c) ensures Within(s', c) && MappableFor(s'.graph, PciDevice(c)) {
      assert Within(s, c) && MappableFor(s.graph, PciDevice(c));
    }
  }

  /** Every grant of the device that has a byte starts at `base`. */
  ghost predicate OnlyAt(g: Graph, b: Bdf, base: nat) {
    forall i :: 0 <= i < |g| && g[i].Some? && g[i].value.principal == PciDevice(b) && g[i].value.len > 0 ==>
      g[i].value.base == base
  }

  lemma NothingLeftIff(g: Graph, b: Bdf, base: nat)
    requires MappableFor(g, PciDevice(b))
    ensures OnlyAt(g, b, base) <==>
            forall v: nat | v < VA_LIMIT :: !IsReachable(DropGrants(g, PciDevice(b), base), PciDevice(b), v)
  {
    hide IsReachable, DropGrants, PagesFor;
    var p := PciDevice(b);
    if OnlyAt(g, b, base) {
      forall v: nat | v < VA_LIMIT ensures !IsReachable(DropGrants(g, p, base), p, v) {
        RevokeReach(g, p, base, p, v);
        if i :| 0 <= i < |g| && Holds(g[i], p, v) && g[i].value.base != base { EmptyGrant(g[i].value); }
      }
    } else {
      var i :| 0 <= i < |g| && g[i].Some? && g[i].value.principal == p && g[i].value.len > 0 && g[i].value.base != base;
      var v := g[i].value.base;
      FirstByte(g[i].value);
      RevokeReach(g, p, base, p, v);
      assert Holds(g[i], p, v);
    }
  }

  lemma EmptyGrant(x: Grant)
    requires Mappable(x) && x.len == 0
    ensures End(x) == x.base
  {
    MappableEnd(x);
  }

  lemma FirstByte(x: Grant)
    requires Mappable(x) && x.len > 0
    ensures Covers(x, x.base) && x.base < VA_LIMIT
  {
    MappableEnd(x);
    DivIs(x.len + 4095, WORD, 0, x.len + 4095);
  }

  /** A revocation clears the device's whole entry: software and hardware agree afterwards
      if and only if the graph grants the device nothing any more, that is if all its grants
      started at `base`. */
  lemma RevokeExactIff(s: Auth, uses: Uses, b: Bdf, base: nat, s': Auth)
    requires AuthInv(s, uses) && OnBus(b) && s' == Revoked(s, b, base).0
    ensures Exact(s', b) <==> forall v: nat | v < VA_LIMIT :: !IsReachable(s'.graph, PciDevice(b), v)
    ensures Exact(s', b) <==> OnlyAt(s.graph, b, base)
  {
    hide Revoked, Reaches, IsReachable, Undisturbed, OnlyAt, Good;
    HasGood(s, uses);
    NothingLeftIff(s.graph, b, base);
    assert s'.graph == DropGrants(s.graph, PciDevice(b), base) by { RevokedGraph(s, b, base); }
    RevokeKeeps(s, uses, b, base, s');
    if Exact(s', b) {
      forall v: nat | v < VA_LIMIT ensures !IsReachable(s'.graph, PciDevice(b), v) {
        assert !Reaches(s'.hw, b, v, v);
      }
    }
  }

  lemma RevokedGraph(s: Auth, b: Bdf, base: nat)
    requires |s.hw.busContext| == 256 && IsBdf(b)
    ensures Revoked(s, b, base).0.graph == DropGrants(s.graph, PciDevice(b), base)
  {
  }

  lemma {:induction false} CountIsFound(g: Graph, p: Principal, base: nat)
    ensures CountMatches(g, p, base) > 0 <==> exists i :: 0 <= i < |g| && Matches(g[i], p, base)
  {
    if g != [] {
      var init := g[..|g| - 1];
      CountIsFound(init, p, base);
      if i :| 0 <= i < |init| && Matches(init[i], p, base) { assert Matches(g[i], p, base); }
      if i :| 0 <= i < |g| && Matches(g[i], p, base) { assert i < |init| ==> Matches(init[i], p, base); }
    }
  }

  // ----- Whole runs -------------------------------------------------------

  /** The authority layer's own calls, the CPU side's changes to the shared graph,
      and the hardware's traffic, in any order. */
  datatype Event =
    | GrantDev(b: Bdf, base: nat, len: nat)
    | RevokeDev(b: Bdf, base: nat)
    | GrantCpu(x: Grant)
    | RevokeCpu(pid: nat, base: nat)
    | Access(b: Bdf, v: nat)
    | Forget(keep: set<(nat, nat)>)

  ghost predicate Allowed(s: Auth, e: Event) {
    && |s.hw.busContext| == 256
    && match e
       case GrantDev(b, base, len) => OnBus(b) && Mappable(DeviceGrant(b, base, len)) && Ready(s, b, base, len)
       case RevokeDev(b, base) => OnBus(b)
       case GrantCpu(x) => x.principal.CpuProcess?
       case RevokeCpu(pid, base) => true
       case Access(b, v) => OnBus(b) && v < VA_LIMIT
       case Forget(keep) => true
  }

  ghost function Apply(s: Auth, e: Event): Auth
    requires Allowed(s, e)
  {
    match e
    case GrantDev(b, base, len) => Granted(s, b, base, len).0
    case RevokeDev(b, base) => Revoked(s, b, base).0
    case GrantCpu(x) => s.(graph := AddGrant(s.graph, x))
    case RevokeCpu(pid, base) => s.(graph := DropGrants(s.graph, CpuProcess(pid), base))
    case Access(b, v) => s.(hw := Dma(s.hw, b, v))
    case Forget(keep) => s.(hw := Evict(s.hw, keep))
  }

  /** `s'` comes from `s` by the events of `es`. */
  ghost predicate Runs(s: Auth, es: seq<Event>, s': Auth)
    decreases |es|
  {
    if es == [] then s' == s
    else Allowed(s, es[0]) && Runs(Apply(s, es[0]), es[1..], s')
  }

  lemma CpuKeeps(s: Auth, uses: Uses, g: Graph)
    requires AuthInv(s, uses)
    requires forall c :: MappableFor(s.graph, PciDevice(c)) ==> MappableFor(g, PciDevice(c))
    requires forall c, v :: IsReachable(g, PciDevice(c), v) <==> IsReachable(s.graph, PciDevice(c), v)
    ensures AuthInv(s.(graph := g), uses)
  {
    hide Reaches, IsReachable, Mappable, Good;
    forall c | OnBus(c) ensures Within(s.(graph := g), c) {
      assert Within(s, c);
    }
  }

  lemma HwKeeps(s: Auth, uses: Uses, hw: State)
    requires AuthInv(s, uses) && Good(hw, uses) && hw == s.hw.(iotlb := hw.iotlb)
    ensures AuthInv(s.(hw := hw), uses)
  {
    hide Walk, BigAt, Slot, IsReachable, Mappable;
    forall c | OnBus(c) ensures Within(s.(hw := hw), c) {
      forall v: nat, p: nat | v < VA_LIMIT ensures Reaches(hw, c, v, p) <==> Reaches(s.hw, c, v, p) {
        CacheAddsNothing(hw, uses, c, v, p);
        CacheAddsNothing(s.hw, uses, c, v, p);
      }
      assert Within(s, c);
    }
  }

  lemma EventKeeps(s: Auth, uses: Uses, e: Event) returns (uses': Uses)
    requires AuthInv(s, uses) && Allowed(s, e)
    ensures AuthInv(Apply(s, e), uses')
  {
    hide Walk, BigAt, Slot, Reaches, IsReachable, Mappable, Good, Granted, Revoked, AuthInv;
    uses' := uses;
    match e
    case GrantDev(b, base, len) => uses' := GrantKeeps(s, uses, b, base, len, Apply(s, e));
    case RevokeDev(b, base) => RevokeKeeps(s, uses, b, base, Apply(s, e));
    case GrantCpu(x) =>
      CpuGrantKeeps(s, uses, x);
    case RevokeCpu(pid, base) =>
      CpuRevokeKeeps(s, uses, pid, base);
    case Access(b, v) =>
      HasGood(s, uses);
      DmaGood(s.hw, uses, b, v);
      HwKeeps(s, uses, Dma(s.hw, b, v));
    case Forget(keep) =>
      HasGood(s, uses);
      EvictGood(s.hw, uses, keep);
      HwKeeps(s, uses, Evict(s.hw, keep));
  }

  lemma HasGood(s: Auth, uses: Uses)
    requires AuthInv(s, uses)
    ensures Good(s.hw, uses) && |s.hw.busContext| == 256
  {
  }

  lemma CpuGrantKeeps(s: Auth, uses: Uses, x: Grant)
    requires AuthInv(s, uses) && x.principal.CpuProcess?
    ensures AuthInv(s.(graph := AddGrant(s.graph, x)), uses)
  {
    hide Reaches, IsReachable, Mappable, Good;
    forall c, v ensures IsReachable(AddGrant(s.graph, x), PciDevice(c), v) <==> IsReachable(s.graph, PciDevice(c), v) {
      GrantReach(s.graph, x, PciDevice(c), v);
    }
    CpuKeeps(s, uses, AddGrant(s.graph, x));
  }

  lemma CpuRevokeKeeps(s: Auth, uses: Uses, pid: nat, base: nat)
    requires AuthInv(s, uses)
    ensures AuthInv(s.(graph := DropGrants(s.graph, CpuProcess(pid), base)), uses)
  {
    hide Reaches, IsReachable, Mappable, Good;
    var g := DropGrants(s.graph, CpuProcess(pid), base);
    forall c, v ensures IsReachable(g, PciDevice(c), v) <==> IsReachable(s.graph, PciDevice(c), v) {
      RevokeReach(s.graph, CpuProcess(pid), base, PciDevice(c), v);
    }
    CpuKeeps(s, uses, g);
  }

  lemma {:induction false} RunKeeps(s: Auth, uses: Uses, es: seq<Event>, s': Auth) returns (uses': Uses)
    requires AuthInv(s, uses) && Runs(s, es, s')
    ensures AuthInv(s', uses')
    decreases |es|
  {
    hide AuthInv, Apply, Allowed;
    if es == [] {
      uses' := uses;
    } else {
      var uses1 := EventKeeps(s, uses, es[0]);
      uses' := RunKeeps(Apply(s, es[0]), uses1, es[1..], s');
    }
  }

  /** The state after `init`: an empty graph and an empty root table. */
  function Fresh(t: Tables): Auth {
    Auth(seq(MAX_GRANTS, _ => None), Init(t))
  }

  /** The law of the layer, over every run from start-up: no device ever reaches a
      byte, through its tables or a cached translation, that the graph does not grant it. */
  lemma SiliconStaysWithinSoftware(t: Tables, es: seq<Event>, s': Auth, b: Bdf, v: nat, p: nat)
    requires FreeOk(t.free, map[]) && t.free != [] && Runs(Fresh(t), es, s')
    requires OnBus(b) && v < VA_LIMIT && Reaches(s'.hw, b, v, p)
    ensures p == v && IsReachable(s'.graph, PciDevice(b), v)
  {
    hide Walk, BigAt, Slot, IsReachable, Mappable, Good, Init, Runs;
    InitGood(t);
    var uses: Uses := map[Fresh(t).hw.root := RootTable];
    var uses' := RunKeeps(Fresh(t), uses, es, s');
    assert Within(s', b);
  }

  // ----- Where the law stops ----------------------------------------------

  lemma {:induction false} ProjectionOfOne(g: Graph, p: Principal, j: nat)
    requires j < |g| && g[j].Some? && g[j].value.principal == p
    requires forall i :: 0 <= i < |g| && i != j && g[i].Some? ==> g[i].value.principal != p
    ensures Projection(g, p) == Entries(g[j].value)
  {
    var init := g[..|g| - 1];
    if j < |init| {
      ProjectionOfOne(init, p, j);
    } else {
      ProjectionOfNone(init, p);
    }
  }

  lemma {:induction false} ProjectionOfNone(g: Graph, p: Principal)
    requires forall i :: 0 <= i < |g| && g[i].Some? ==> g[i].value.principal != p
    ensures Projection(g, p) == []
  {
    if g != [] { ProjectionOfNone(g[..|g| - 1], p); }
  }

  /** No grant of the device is in the table. */
  ghost predicate FirstGrant(s: Auth, b: Bdf) {
    forall i :: 0 <= i < |s.graph| && s.graph[i].Some? ==> s.graph[i].value.principal != PciDevice(b)
  }

  /** `grant_device` accepts any base and length, but for a first grant software and
      hardware agree exactly when the base is page-aligned and at most 32 pages are asked
      for: an unaligned base makes the hardware map the whole first page and the graph
      only the part from `base` on, and of a longer range the hardware maps only the first
      32 pages. */
  lemma ExactIffAligned(s: Auth, uses: Uses, b: Bdf, base: nat, len: nat, s': Auth)
    requires AuthInv(s, uses) && OnBus(b) && Ready(s, b, base, len) && HasRoom(s.graph) && FirstGrant(s, b)
    requires 0 < len && base + len <= VA_LIMIT && s' == Granted(s, b, base, len).0
    ensures Exact(s', b) <==> base % 4096 == 0 && len <= 32 * 4096
  {
    hide Ready, Exact, PagesFor, FirstGrant, Granted, AuthInv;
    HasGood(s, uses);
    PagesFitIff(len);
    ExactIffPages(s, uses, b, base, len, s');
  }

  lemma ExactIffPages(s: Auth, uses: Uses, b: Bdf, base: nat, len: nat, s': Auth)
    requires AuthInv(s, uses) && OnBus(b) && Ready(s, b, base, len) && HasRoom(s.graph) && FirstGrant(s, b)
    requires 0 < len && base + len <= VA_LIMIT && s' == Granted(s, b, base, len).0
    ensures Exact(s', b) <==> base % PAGE == 0 && PagesFor(len) <= MAX_GRANTS
  {
    hide Walk, BigAt, Slot, Reaches, IsReachable, Good, Assign, Granted, Exact, PagesFor, FirstGrant;
    if base % PAGE != 0 {
      UnalignedLeaks(s, uses, b, base, len, s');
      NotExact(s', b, base / PAGE * PAGE);
    } else if PagesFor(len) <= MAX_GRANTS {
      AlignedIsExact(s, uses, b, base, len, s');
    } else {
      LongGrantIsCut(s, uses, b, base, len, s');
      NotReached(s', b, base + MAX_GRANTS * PAGE);
    }
  }

  lemma PagesFitIff(len: nat)
    requires len <= VA_LIMIT
    ensures PagesFor(len) <= MAX_GRANTS <==> len <= 32 * 4096
  {
    DivIs(len + 4095, WORD, 0, len + 4095);
  }

  lemma NotExact(s: Auth, b: Bdf, v: nat)
    requires OnBus(b) && v < VA_LIMIT && Reaches(s.hw, b, v, v) && !IsReachable(s.graph, PciDevice(b), v)
    ensures !Exact(s, b) && !Within(s, b)
  {
  }

  lemma NotReached(s: Auth, b: Bdf, v: nat)
    requires OnBus(b) && v < VA_LIMIT && !Reaches(s.hw, b, v, v) && IsReachable(s.graph, PciDevice(b), v)
    ensures !Exact(s, b)
  {
  }

  lemma OneGrant(s: Auth, b: Bdf, base: nat, len: nat, s': Auth)
    requires OnBus(b) && HasRoom(s.graph) && |s.hw.busContext| == 256 && FirstGrant(s, b)
    requires 0 < len && base + len <= VA_LIMIT && s' == Granted(s, b, base, len).0
    ensures var es := Entries(DeviceGrant(b, base, len));
            && 0 < |es| == PagesFor(len) && Projection(s'.graph, PciDevice(b)) == es && Granted(s, b, base, len).1
            && s'.hw == Assign(s.hw, b, PageRanges(Take(es, MAX_GRANTS)))
            && s'.graph == AddGrant(s.graph, DeviceGrant(b, base, len))
            && (Ready(s, b, base, len) ==> CanAssign(s.hw, b, Take(es, MAX_GRANTS)))
  {
    hide Assign, CanAssign;
    var g, k := AddGrant(s.graph, DeviceGrant(b, base, len)), FirstFree(s.graph);
    assert g[k] == Some(DeviceGrant(b, base, len));
    ProjectionOfOne(g, PciDevice(b), k);
    DivIs(len + 4095, WORD, 0, len + 4095);
  }

  lemma AlignedIsExact(s: Auth, uses: Uses, b: Bdf, base: nat, len: nat, s': Auth)
    requires AuthInv(s, uses) && OnBus(b) && Ready(s, b, base, len) && HasRoom(s.graph) && FirstGrant(s, b)
    requires 0 < len && base + len <= VA_LIMIT && base % PAGE == 0 && PagesFor(len) <= MAX_GRANTS
    requires s' == Granted(s, b, base, len).0
    ensures Exact(s', b)
  {
    hide Walk, BigAt, Slot, Reaches, IsReachable, Assign, Projection, Entries, PagesFor, FirstGrant;
    OneGrant(s, b, base, len, s');
    var uses' := GrantKeeps(s, uses, b, base, len, s');
  }

  /** The pages of a single grant. */
  lemma GrantPages(b: Bdf, base: nat, len: nat, es: seq<Entry>)
    requires es == Entries(DeviceGrant(b, base, len)) && 0 < len && base + len <= VA_LIMIT
    ensures |es| == PagesFor(len) > 0
    ensures forall k :: 0 <= k < |es| ==> es[k].page == base + k * PAGE < VA_LIMIT
  {
    DivIs(len + 4095, WORD, 0, len + 4095);
    forall k | 0 <= k < |es| ensures es[k].page == base + k * PAGE < VA_LIMIT {
      var p := base + k * PAGE;
      assert (k + 1) * PAGE <= len + 4095;
      DivIs(p, WORD, 0, p);
    }
  }

  /** Programming the hardware with the first 32 pages of a grant. */
  lemma CutGrantReach(s: Auth, uses: Uses, b: Bdf, base: nat, len: nat, s': Auth, v: nat)
    requires AuthInv(s, uses) && OnBus(b) && 0 < len && base + len <= VA_LIMIT && v < VA_LIMIT
    requires CanAssign(s.hw, b, Take(Entries(DeviceGrant(b, base, len)), MAX_GRANTS))
    requires s'.hw == Assign(s.hw, b, PageRanges(Take(Entries(DeviceGrant(b, base, len)), MAX_GRANTS)))
    ensures Reaches(s'.hw, b, v, v) <==>
            exists k :: 0 <= k < PagesFor(len) && k < MAX_GRANTS && (base + k * PAGE) / PAGE == v / PAGE
  {
    hide Walk, BigAt, Slot, Assign, Reaches, Good, PagesOf, Entries, PagesFor;
    var es := Entries(DeviceGrant(b, base, len));
    GrantPages(b, base, len, es);
    var cut := Take(es, MAX_GRANTS);
    SinglePages(cut);
    var ps := PagesOf(PageRanges(cut));
    assert Good(s.hw, uses);
    var uses' := AssignBuilds(s.hw, uses, b, PageRanges(cut), s'.hw);
    CacheAddsNothing(s'.hw, uses', b, v, v);
    assert Covered(ps, v) <==> exists k :: 0 <= k < |ps| && ps[k] / PAGE == v / PAGE;
    assert forall k :: 0 <= k < |ps| ==> ps[k] == base + k * PAGE;
  }

  lemma UnalignedLeaks(s: Auth, uses: Uses, b: Bdf, base: nat, len: nat, s': Auth)
    requires AuthInv(s, uses) && OnBus(b) && Ready(s, b, base, len) && HasRoom(s.graph) && FirstGrant(s, b)
    requires 0 < len && base + len <= VA_LIMIT && base % PAGE != 0 && s' == Granted(s, b, base, len).0
    ensures var v := base / PAGE * PAGE; Reaches(s'.hw, b, v, v) && !IsReachable(s'.graph, PciDevice(b), v)
  {
    var v := base / PAGE * PAGE;
    assert v < base && v / PAGE == base / PAGE;
    hide Walk, Slot, Reaches, IsReachable, Granted, FirstGrant, AuthInv, Good, Ready;
    HasGood(s, uses);
    LeaksBelow(s, uses, b, base, len, s', v);
  }

  lemma LeaksBelow(s: Auth, uses: Uses, b: Bdf, base: nat, len: nat, s': Auth, v: nat)
    requires AuthInv(s, uses) && OnBus(b) && Ready(s, b, base, len) && HasRoom(s.graph) && FirstGrant(s, b) && |s.hw.busContext| == 256
    requires 0 < len && base + len <= VA_LIMIT && s' == Granted(s, b, base, len).0
    requires v < base && v / PAGE == base / PAGE
    ensures Reaches(s'.hw, b, v, v) && !IsReachable(s'.graph, PciDevice(b), v)
  {
    hide Walk, BigAt, Slot, Assign, Projection, Reaches, Entries, PagesFor, Granted, IsReachable, AddGrant, FirstGrant, AuthInv, Take, Ready;
    OneGrant(s, b, base, len, s');
    CutGrantReach(s, uses, b, base, len, s', v);
    assert base + 0 * PAGE == base;
    NothingYet(s, b, v);
    GrantReach(s.graph, DeviceGrant(b, base, len), PciDevice(b), v);
  }

  lemma NothingYet(s: Auth, b: Bdf, v: nat)
    requires FirstGrant(s, b)
    ensures !IsReachable(s.graph, PciDevice(b), v)
  {
  }

  /** The 33rd page of a page-aligned first grant is granted and not reached. */
  lemma LongGrantIsCut(s: Auth, uses: Uses, b: Bdf, base: nat, len: nat, s': Auth)
    requires AuthInv(s, uses) && OnBus(b) && Ready(s, b, base, len) && HasRoom(s.graph) && FirstGrant(s, b)
    requires 0 < len && base + len <= VA_LIMIT && base % PAGE == 0 && PagesFor(len) > MAX_GRANTS
    requires s' == Granted(s, b, base, len).0
    ensures var v := base + MAX_GRANTS * PAGE;
            v < VA_LIMIT && !Reaches(s'.hw, b, v, v) && IsReachable(s'.graph, PciDevice(b), v)
  {
    var v := base + MAX_GRANTS * PAGE;
    hide Walk, BigAt, Slot, Assign, Projection, Reaches, Entries, PagesFor, Granted;
    OneGrant(s, b, base, len, s');
    GrantPages(b, base, len, Entries(DeviceGrant(b, base, len)));
    MappableEnd(DeviceGrant(b, base, len));
    CutGrantReach(s, uses, b, base, len, s', v);
    GrantReach(s.graph, DeviceGrant(b, base, len), PciDevice(b), v);
  }

  /** The device a number lands on. */
  function Alias(b: Bdf): (c: Bdf)
    requires IsBdf(b)
    ensures OnBus(c) && DevFn(c) == DevFn(b)
  {
    Bdf(b.bus, b.device % 32, b.function_ % 8)
  }

  /** A grant to a number that PCI cannot address is programmed for the device it aliases,
      which the graph gives nothing new. */
  lemma AliasReach(s: Auth, uses: Uses, b: Bdf, base: nat, len: nat, s': Auth)
    requires AuthInv(s, uses) && IsBdf(b) && !OnBus(b) && Ready(s, b, base, len)
    requires MappableFor(s.graph, PciDevice(b)) && Mappable(DeviceGrant(b, base, len))
    requires s' == Granted(s, b, base, len).0 && Granted(s, b, base, len).1
    ensures forall v: nat, p: nat :: v < VA_LIMIT ==>
              (Reaches(s'.hw, Alias(b), v, p) <==> p == v && OnPage(Projected(s'.graph, b), v))
    ensures forall v :: IsReachable(s'.graph, PciDevice(Alias(b)), v) <==> IsReachable(s.graph, PciDevice(Alias(b)), v)
  {
    hide Walk, BigAt, Slot, Assign, Projection, OnPage, IsReachable, Mappable, CanAssign, Good, DevFn;
    var c, g := Alias(b), s'.graph;
    HasGood(s, uses);
    assert MappableFor(g, PciDevice(b));
    ProjectionIsReach(g, PciDevice(b), 0);
    TakeOnPage(Projection(g, PciDevice(b)), MAX_GRANTS, 0);
    var uses' := AssignedReach(s.hw, uses, b, Projected(g, b), s'.hw);
    forall v: nat, p: nat | v < VA_LIMIT ensures Reaches(s'.hw, c, v, p) <==> p == v && OnPage(Projected(g, b), v) {
      assert Reaches(s'.hw, c, v, p) <==> Reaches(s'.hw, b, v, p);
    }
    forall v ensures IsReachable(g, PciDevice(c), v) <==> IsReachable(s.graph, PciDevice(c), v) {
      GrantReach(s.graph, DeviceGrant(b, base, len), PciDevice(c), v);
    }
  }

  /** Device and function numbers are u8 and only masked when the context entry is picked.
      After a grant to a number PCI cannot address the law holds for the device it lands on
      if and only if the graph had already given that device every page programmed. */
  lemma AliasedDevice(s: Auth, uses: Uses, b: Bdf, base: nat, len: nat, s': Auth)
    requires AuthInv(s, uses) && IsBdf(b) && !OnBus(b) && Ready(s, b, base, len)
    requires MappableFor(s.graph, PciDevice(b)) && Mappable(DeviceGrant(b, base, len))
    requires s' == Granted(s, b, base, len).0 && Granted(s, b, base, len).1
    ensures Within(s', Alias(b)) <==>
            forall v: nat | v < VA_LIMIT && OnPage(Projected(s'.graph, b), v) :: IsReachable(s.graph, PciDevice(Alias(b)), v)
    ensures forall v: nat | v < VA_LIMIT && OnPage(Projected(s'.graph, b), v) :: Reaches(s'.hw, Alias(b), v, v)
  {
    hide Reaches, Granted, OnPage, IsReachable, Mappable, Ready, AuthInv, Projected, MappableFor;
    AliasReach(s, uses, b, base, len, s');
    if Within(s', Alias(b)) {
      forall v: nat | v < VA_LIMIT && OnPage(Projected(s'.graph, b), v) ensures IsReachable(s.graph, PciDevice(Alias(b)), v) {
        assert Reaches(s'.hw, Alias(b), v, v);
      }
    }
  }

  /** A device the graph gives nothing never survives such a grant. */
  lemma AliasBreaks(s: Auth, uses: Uses, b: Bdf, base: nat, len: nat, s': Auth)
    requires AuthInv(s, uses) && IsBdf(b) && !OnBus(b) && Ready(s, b, base, len)
    requires MappableFor(s.graph, PciDevice(b)) && Mappable(DeviceGrant(b, base, len))
    requires s' == Granted(s, b, base, len).0 && Granted(s, b, base, len).1 && FirstGrant(s, Alias(b))
    ensures !Within(s', Alias(b))
  {
    hide Reaches, IsReachable, Mappable, Ready, AuthInv, Projection, FirstGrant, Within;
    AliasedDevice(s, uses, b, base, len, s');
    var es := Projected(s'.graph, b);
    assert MappableFor(s'.graph, PciDevice(b));
    ProjectionIsReach(s'.graph, PciDevice(b), 0);
    TakeOnPage(Projection(s'.graph, PciDevice(b)), MAX_GRANTS, 0);
    var v := es[0].page;
    assert v < VA_LIMIT && OnPage(es, v);
    NothingYet(s, Alias(b), v);
  }

  /** `grant_device` does not look whether the pages it needs are there.  Where page 0 and
      the pages to be programmed are blank, the layer is in order after a grant if and only
      if they were, and a domain number with them. */
  lemma GrantSoundIff(s: Auth, uses: Uses, b: Bdf, base: nat, len: nat, s': Auth)
    requires AuthInv(s, uses) && OnBus(b) && Mappable(DeviceGrant(b, base, len)) && s' == Granted(s, b, base, len).0
    requires Granted(s, b, base, len).1 ==> Blank(s.hw, uses, PagesOf(PageRanges(Projected(s'.graph, b))))
    ensures (exists uses' :: AuthInv(s', uses')) <==> Ready(s, b, base, len)
  {
    hide Assign, Projection, Good, Blank, Enough, Mappable, PagesOf, PageRanges, Reaches, IsReachable, InReach;
    if Ready(s, b, base, len) {
      var uses' := GrantKeeps(s, uses, b, base, len, s');
    } else {
      var g := AddGrant(s.graph, DeviceGrant(b, base, len));
      var es := Projected(g, b);
      assert MappableFor(g, PciDevice(b));
      ProjectionIsReach(g, PciDevice(b), 0);
      TakeOnPage(Projection(g, PciDevice(b)), MAX_GRANTS, 0);
      CoveredIsOnPage(es, 0);
      AssignSoundIff(s.hw, uses, b, PageRanges(es), s'.hw);
      forall uses' ensures !AuthInv(s', uses') {
        assert !Good(s'.hw, uses');
      }
    }
  }

  // ----- The layer as it runs ---------------------------------------------

  class Layer {
    const graph: array<Option<Grant>>
    const iommu: Unit

    ghost function View(): Auth
      reads this, graph, iommu
    {
      Auth(graph[..], iommu.View())
    }

    ghost predicate Shape()
      reads this, graph, iommu
    {
      graph.Length == MAX_GRANTS && iommu.Shape()
    }

    constructor (memory: Mem, pages: seq<nat>)
      ensures Shape() && fresh(graph) && fresh(iommu) && View() == Fresh(Tables(memory, pages))
      ensures graph.Length == 32 && forall i :: 0 <= i < 32 ==> graph[i].None?
    {
      graph := new Option<Grant>[MAX_GRANTS](_ => None);
      iommu := new Unit(memory, pages);
    }

    method GrantDevice(b: Bdf, base: nat, len: nat) returns (domain: Option<nat>)
      requires Shape() && IsBdf(b)
      modifies graph, iommu
      ensures Shape() && (View(), domain.Some?) == Granted(old(View()), b, base, len)
      ensures domain.Some? ==> domain.value == iommu.nextDomain
      ensures (exists i :: 0 <= i < |old(graph[..])| && old(graph[..])[i].None?) ==>
              exists i :: 0 <= i < graph.Length && FirstEmpty(old(graph[..]), i)
                     && graph[..] == old(graph[..])[i := Some(Grant(PciDevice(b), base, len, true, false))]
    {
      hide Assign, Projection, AddGrant;
      var added := GrantInto(graph, Grant(PciDevice(b), base, len, true, false));
      if !added {
        assert graph[..] == old(graph[..]) by { AddNeedsRoom(old(graph[..]), DeviceGrant(b, base, len)); }
        return None;
      }
      var entries := new Entry[MAX_GRANTS](_ => Entry(0, false, false));
      var count := ProjectInto(graph, PciDevice(b), entries);
      if count == 0 {
        return None;
      }
      var ranges := ToRanges(entries, count);
      var d := iommu.AssignDevice(b, ranges);
      return Some(d);
    }

    method RevokeDevice(b: Bdf, base: nat) returns (both: bool)
      requires Shape() && IsBdf(b)
      modifies graph, iommu
      ensures Shape() && (View(), both) == Revoked(old(View()), b, base)
    {
      var removed := RevokeFrom(graph, PciDevice(b), base);
      var found := iommu.RevokeDevice(b);
      both := removed > 0 && found;
    }
  }

  lemma AddNeedsRoom(g: Graph, x: Grant)
    requires !HasRoom(g)
    ensures AddGrant(g, x) == g
  {
  }

  method ToRanges(entries: array<Entry>, count: nat) returns (ranges: seq<Range>)
    requires count <= entries.Length
    ensures ranges == PageRanges(entries[..count])
  {
    ranges := [];
    for i := 0 to count
      invariant ranges == PageRanges(entries[..count])[..i]
    {
      ranges := ranges + [Range(entries[i].page, 4096)];
    }
  }
}
