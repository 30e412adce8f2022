/** The boot loader's temporary page tables: the firmware's memory map identity
    mapped with 2MB pages, then the kernel's higher-half range with 4K pages, in
    one tree built from a bump pool.  When the pool is empty the loader halts, so
    a build either halts or completes; everything below is about completed builds. */
module Bootstrap {
  import opened Options
  import opened PageTables
  import opened Arith

  const HALF: nat := 0x8000_0000_0000          // 2^47: where the lower half ends

  datatype Desc = Desc(start: nat, pages: nat)

  function DescEnd(d: Desc): nat { (d.start + d.pages * 4096) % WORD }

  function RoundDown(a: nat): nat { a / BIG * BIG }

  /** The 2MB block addresses the mapping loop visits for one descriptor. */
  function Blocks(d: Desc): seq<nat> {
    var lo, hi := RoundDown(d.start), RoundDown((DescEnd(d) + 0x1F_FFFF) % WORD);
    if d.pages == 0 || hi <= lo then [] else seq((hi - lo) / BIG, k requires k >= 0 => lo + k * BIG)
  }

  function BlocksOf(ds: seq<Desc>): seq<nat> {
    if ds == [] then [] else BlocksOf(ds[..|ds| - 1]) + Blocks(ds[|ds| - 1])
  }

  datatype Kernel = Kernel(pstart: nat, pend: nat, vstart: nat)

  function Offset(k: Kernel): nat
    requires k.pstart <= k.vstart
  {
    k.vstart - k.pstart
  }

  /** The physical pages of the kernel image, rounded outward. */
  function KernelPages(k: Kernel): seq<nat> {
    var lo, hi := k.pstart / PAGE * PAGE, (k.pend + 0xFFF) % WORD / PAGE * PAGE;
    if hi <= lo then [] else seq((hi - lo) / PAGE, i requires i >= 0 => lo + i * PAGE)
  }

  // ----- The build, halting when the pool runs dry -------------------------

  function MapBlocks(t: Tables, root: nat, addrs: seq<nat>): Option<Tables> {
    if addrs == [] then Some(t) else
    var a := addrs[|addrs| - 1];
    match MapBlocks(t, root, addrs[..|addrs| - 1])
    case None => None
    case Some(t1) => if PdFits(t1, root, a) then Some(Map2M(t1, root, a, a)) else None
  }

  function MapKernel(t: Tables, root: nat, offset: nat, pages: seq<nat>): Option<Tables> {
    if pages == [] then Some(t) else
    var p := pages[|pages| - 1];
    match MapKernel(t, root, offset, pages[..|pages| - 1])
    case None => None
    case Some(t1) =>
      var v := (p + offset) % WORD;
      if PtFits(t1, root, v) then Some(Map4K(t1, root, v, p)) else None
  }

  /** The tables of a completed build; their root is the pool's first page. */
  function Completed(t: Tables, ds: seq<Desc>, k: Kernel): Option<Tables>
    requires k.pstart <= k.vstart
  {
    if t.free == [] then None else
    var (t1, root) := Alloc(t);
    match MapBlocks(t1, root, BlocksOf(ds))
    case None => None
    case Some(t2) => MapKernel(t2, root, Offset(k), KernelPages(k))
  }

  /** What a mapping takes from the pool. */
  lemma MappingTakes(t: Tables, root: nat, v: nat, pa: nat)
    ensures |Map2M(t, root, v, pa).free| >= |t.free| - 2
    ensures |Map4K(t, root, v, pa).free| >= |t.free| - 3
  {
    hide Read, Write, I1, I2, I3, I4;
  }

  lemma {:induction false} BlocksSuffice(t: Tables, root: nat, addrs: seq<nat>)
    requires |t.free| >= 2 * |addrs|
    ensures MapBlocks(t, root, addrs).Some? && |MapBlocks(t, root, addrs).value.free| >= |t.free| - 2 * |addrs|
  {
    hide PdFits, Map2M;
    if addrs != [] {
      var a := addrs[|addrs| - 1];
      BlocksSuffice(t, root, addrs[..|addrs| - 1]);
      var t1 := MapBlocks(t, root, addrs[..|addrs| - 1]).value;
      ThreeIsEnough(t1, root, a);
      MappingTakes(t1, root, a, a);
    }
  }

  lemma {:induction false} KernelSuffices(t: Tables, root: nat, offset: nat, pages: seq<nat>)
    requires |t.free| >= 3 * |pages|
    ensures MapKernel(t, root, offset, pages).Some?
    ensures |MapKernel(t, root, offset, pages).value.free| >= |t.free| - 3 * |pages|
  {
    hide PtFits, Map4K;
    if pages != [] {
      var p := pages[|pages| - 1];
      KernelSuffices(t, root, offset, pages[..|pages| - 1]);
      var t1 := MapKernel(t, root, offset, pages[..|pages| - 1]).value;
      ThreeIsEnough(t1, root, (p + offset) % WORD);
      MappingTakes(t1, root, (p + offset) % WORD, p);
    }
  }

  /** A pool with a page for the root, two for each block and three for each kernel page
      is always enough: the build completes. */
  lemma PoolSuffices(t: Tables, ds: seq<Desc>, k: Kernel)
    requires k.pstart <= k.vstart && |t.free| >= 1 + 2 * |BlocksOf(ds)| + 3 * |KernelPages(k)|
    ensures Completed(t, ds, k).Some?
  {
    hide MapBlocks, MapKernel, BlocksOf, KernelPages;
    var (t1, root) := Alloc(t);
    BlocksSuffice(t1, root, BlocksOf(ds));
    KernelSuffices(MapBlocks(t1, root, BlocksOf(ds)).value, root, Offset(k), KernelPages(k));
  }

  // ----- First phase: 2MB identity blocks ----------------------------------

  ghost predicate OnBlock(addrs: seq<nat>, v: nat) {
    exists k :: 0 <= k < |addrs| && addrs[k] / BIG == v / BIG
  }

  ghost predicate BlocksFine(addrs: seq<nat>) {
    forall k :: 0 <= k < |addrs| ==> addrs[k] % BIG == 0 && addrs[k] < HALF
  }

  ghost predicate NoPts(uses: Uses) { forall p :: p in uses && uses[p].Table? ==> |uses[p].path| < 3 }

  /** Exactly the blocks are mapped, each to itself, and each as a 2MB page. */
  ghost predicate BlocksMapped(m: Mem, root: nat, addrs: seq<nat>) {
    forall v: nat | v < VA_LIMIT ::
      && BigAt(m, root, v) == OnBlock(addrs, v)
      && Walk(m, root, v) == if OnBlock(addrs, v) then Some(v) else None
  }

  lemma OnBlockInit(addrs: seq<nat>, v: nat)
    requires addrs != []
    ensures OnBlock(addrs, v) <==> addrs[|addrs| - 1] / BIG == v / BIG || OnBlock(addrs[..|addrs| - 1], v)
  {
    var init := addrs[..|addrs| - 1];
    if k :| 0 <= k < |addrs| && addrs[k] / BIG == v / BIG { assert k < |init| ==> init[k] == addrs[k]; }
    if k :| 0 <= k < |init| && init[k] / BIG == v / BIG { assert init[k] == addrs[k]; }
  }

  lemma BlockIdentity(a: nat, v: nat)
    requires a < VA_LIMIT && a % BIG == 0 && a / BIG == v / BIG
    ensures BigFrame(a) + v % BIG == v
  {
    DivIs(a, ADDR_LIMIT, 0, a);
  }

  lemma {:induction false} BlocksExact(t: Tables, uses: Uses, root: nat, addrs: seq<nat>, t': Tables)
    returns (uses': Uses)
    requires Inv(t, uses) && IsRoot(uses, root) && NoPts(uses) && BlocksFine(addrs) && BlocksMapped(t.mem, root, [])
    requires MapBlocks(t, root, addrs) == Some(t')
    ensures Inv(t', uses') && IsRoot(uses', root) && NoPts(uses') && BlocksMapped(t'.mem, root, addrs)
    ensures Takes(t, uses, t', uses', root, BlockPaths(addrs))
    decreases |addrs|
  {
    hide Walk, BigAt, Map2M, PdFits, Inv, Takes, PdPaths;
    if addrs == [] {
      uses' := uses;
      TakesNone(t, uses, root);
    } else {
      var a, t1 := addrs[|addrs| - 1], MapBlocks(t, root, addrs[..|addrs| - 1]).value;
      var uses1 := BlocksExact(t, uses, root, addrs[..|addrs| - 1], t1);
      uses' := Map2MExact(t1, uses1, root, a, a);
      TakesTrans(t, uses, t1, uses1, t', uses', root, BlockPaths(addrs[..|addrs| - 1]), PdPaths(a));
      BlocksGrow(t1.mem, t'.mem, uses1, root, addrs);
    }
  }

  /** The tables that 2MB pages at `addrs` need below the root. */
  function BlockPaths(addrs: seq<nat>): set<seq<nat>> {
    if addrs == [] then {} else BlockPaths(addrs[..|addrs| - 1]) + PdPaths(addrs[|addrs| - 1])
  }

  /** The blocks can be mapped if and only if there is a page for each table still missing. */
  lemma {:induction false} BlocksFitIff(t: Tables, uses: Uses, root: nat, addrs: seq<nat>)
    requires Inv(t, uses) && IsRoot(uses, root) && NoPts(uses) && BlocksFine(addrs) && BlocksMapped(t.mem, root, [])
    ensures var ps := Paths(uses, root);
            MapBlocks(t, root, addrs).Some? <==> |t.free| + |ps| >= |ps + BlockPaths(addrs)|
    decreases |addrs|
  {
    hide Walk, BigAt, Map2M, PdFits, Inv, Takes, PdPaths, Paths, OnBlock;
    var ps := Paths(uses, root);
    if addrs == [] {
      assert ps + BlockPaths(addrs) == ps;
    } else {
      var init, a := addrs[..|addrs| - 1], addrs[|addrs| - 1];
      BlocksFitIff(t, uses, root, init);
      if MapBlocks(t, root, init).Some? {
        var t1 := MapBlocks(t, root, init).value;
        var uses1 := BlocksExact(t, uses, root, init, t1);
        PdFitsIff(t1, uses1, root, a);
        FitsNext(t, uses, t1, uses1, root, BlockPaths(init), PdPaths(a));
      } else {
        Subset(ps + BlockPaths(init), ps + BlockPaths(addrs));
      }
    }
  }

  lemma BlocksGrow(m: Mem, m': Mem, uses: Uses, root: nat, addrs: seq<nat>)
    requires addrs != [] && IsRoot(uses, root) && BlocksFine(addrs) && BlocksMapped(m, root, addrs[..|addrs| - 1])
    requires var a := addrs[|addrs| - 1];
             && Maps2M(m, m', uses, root, a, BigFrame(a))
             && forall u: nat :: u < VA_LIMIT ==> (BigAt(m', root, u) <==> u / BIG == a / BIG || BigAt(m, root, u))
    ensures BlocksMapped(m', root, addrs)
  {
    hide Walk, BigAt, BigFrame, OnBlock;
    forall v: nat | v < VA_LIMIT
      ensures BigAt(m', root, v) == OnBlock(addrs, v)
      ensures Walk(m', root, v) == if OnBlock(addrs, v) then Some(v) else None
    {
      BlockStep(addrs, v);
      OnBlockInit(addrs, v);
    }
  }

  lemma BlockStep(addrs: seq<nat>, v: nat)
    requires addrs != [] && BlocksFine(addrs)
    ensures var a := addrs[|addrs| - 1];
            (if OnBlock(addrs, v) then Some(v) else None) ==
            if v / BIG == a / BIG then Some(BigFrame(a) + v % BIG)
            else if OnBlock(addrs[..|addrs| - 1], v) then Some(v) else None
  {
    hide OnBlock;
    OnBlockInit(addrs, v);
    if v / BIG == addrs[|addrs| - 1] / BIG { BlockIdentity(addrs[|addrs| - 1], v); }
  }

  // ----- Second phase: the kernel's 4K pages -------------------------------

  /** The walk only looks at the low 48 bits. */
  lemma LowBits(v: nat)
    ensures var u := v % VA_LIMIT;
            && I4(u) == I4(v) && I3(u) == I3(v) && I2(u) == I2(v) && I1(u) == I1(v)
            && u % BIG == v % BIG && u % PAGE == v % PAGE && u % 0x4000_0000 == v % 0x4000_0000
            && u / PAGE == v / PAGE % 0x10_0000_0000
  {
    var u, h := v % VA_LIMIT, v / VA_LIMIT;
    assert v == h * VA_LIMIT + u;
    DivIs(v, PAGE, h * 0x10_0000_0000 + u / PAGE, u % PAGE);
    DivIs(v / PAGE, 0x10_0000_0000, h, u / PAGE);
    DivIs(v, BIG, h * 0x800_0000 + u / BIG, u % BIG);
    DivIs(v, 0x4000_0000, h * 0x40000 + u / 0x4000_0000, u % 0x4000_0000);
    DivIs(v, 0x80_0000_0000, h * 512 + u / 0x80_0000_0000, u % 0x80_0000_0000);
    Add512(h * 0x800_0000, u / PAGE);
    Add512(h * 0x40000, u / BIG);
    Add512(h * 512, u / 0x4000_0000);
    Add512(h, u / 0x80_0000_0000);
  }

  lemma Add512(k: nat, x: nat)
    ensures (k * 512 + x) % 512 == x % 512
  {
    DivIs(k * 512 + x, 512, k + x / 512, x % 512);
  }

  lemma LowBitsWalk(m: Mem, root: nat, v: nat)
    ensures Walk(m, root, v % VA_LIMIT) == Walk(m, root, v) && BigAt(m, root, v % VA_LIMIT) == BigAt(m, root, v)
  {
    hide I1, I2, I3, I4, Frame, BigFrame, Present, Huge;
    LowBits(v);
  }

  lemma LowBitsMap(t: Tables, root: nat, v: nat, pa: nat)
    ensures Map4K(t, root, v % VA_LIMIT, pa) == Map4K(t, root, v, pa)
    ensures PtFits(t, root, v % VA_LIMIT) == PtFits(t, root, v)
  {
    hide I1, I2, I3, I4, Frame, Present, Ensure, Child, CanEnsure;
    LowBits(v);
  }

  /** `u` is on the link address of physical page `p`. */
  predicate LinksTo(p: nat, offset: nat, u: nat) { (p + offset) % WORD % VA_LIMIT / PAGE == u / PAGE }

  /** What the kernel pages make of `u`: the last page mapped there wins. */
  ghost function KernelAt(pages: seq<nat>, offset: nat, u: nat): Option<nat> {
    if pages == [] then None else
    var p := pages[|pages| - 1];
    if (p + offset) % WORD % VA_LIMIT / PAGE == u / PAGE then Some(p + u % PAGE)
    else KernelAt(pages[..|pages| - 1], offset, u)
  }

  ghost predicate HigherHalf(pages: seq<nat>, offset: nat) {
    forall k :: 0 <= k < |pages| ==>
      pages[k] % PAGE == 0 && pages[k] < ADDR_LIMIT && WORD - HALF <= pages[k] + offset < WORD
  }

  lemma HighPage(p: nat, offset: nat)
    requires WORD - HALF <= p + offset < WORD
    ensures (p + offset) % WORD == p + offset && HALF <= (p + offset) % VA_LIMIT
  {
    DivIs(p + offset, WORD, 0, p + offset);
    DivIs(p + offset, VA_LIMIT, 0xFFFF, p + offset - 0xFFFF * VA_LIMIT);
  }

  ghost predicate BothMapped(m: Mem, root: nat, addrs: seq<nat>, pages: seq<nat>, offset: nat) {
    forall u: nat | u < VA_LIMIT ::
      && BigAt(m, root, u) == OnBlock(addrs, u)
      && Walk(m, root, u) == if OnBlock(addrs, u) then Some(u) else KernelAt(pages, offset, u)
  }

  lemma LowBlocks(addrs: seq<nat>, v: nat)
    requires BlocksFine(addrs) && HALF <= v
    ensures !OnBlock(addrs, v)
  {
  }

  /** Every 4K mapping step is safe: the slot it walks through is not a 2MB leaf. */
  lemma NeverThroughABlock(m: Mem, root: nat, addrs: seq<nat>, pages: seq<nat>, offset: nat, p: nat)
    requires BothMapped(m, root, addrs, pages, offset) && BlocksFine(addrs) && WORD - HALF <= p + offset < WORD
    ensures !BigAt(m, root, (p + offset) % WORD % VA_LIMIT)
  {
    hide Walk, BigAt, OnBlock, KernelAt;
    HighPage(p, offset);
    LowBlocks(addrs, (p + offset) % VA_LIMIT);
  }

  lemma NoKernelPages(t: Tables, root: nat, addrs: seq<nat>, offset: nat)
    requires BlocksMapped(t.mem, root, addrs)
    ensures MapKernel(t, root, offset, []) == Some(t) && BothMapped(t.mem, root, addrs, [], offset)
  {
    hide Walk, BigAt, OnBlock;
  }

  lemma {:induction false} KernelExact(t: Tables, uses: Uses, root: nat, addrs: seq<nat>, offset: nat, pages: seq<nat>, t': Tables)
    returns (uses': Uses)
    requires Inv(t, uses) && IsRoot(uses, root) && BlocksFine(addrs) && BlocksMapped(t.mem, root, addrs)
    requires HigherHalf(pages, offset) && MapKernel(t, root, offset, pages) == Some(t')
    ensures Inv(t', uses') && IsRoot(uses', root) && BothMapped(t'.mem, root, addrs, pages, offset)
    ensures Takes(t, uses, t', uses', root, KernelPaths(pages, offset))
    decreases |pages|
  {
    hide Walk, BigAt, Map4K, PtFits, OnBlock, BothMapped, BlocksMapped, BlocksFine, KernelAt, Inv, Takes, PtPaths;
    if pages == [] {
      uses' := uses;
      TakesNone(t, uses, root);
      NoKernelPages(t, root, addrs, offset);
    } else {
      var p, init := pages[|pages| - 1], pages[..|pages| - 1];
      var t1 := MapKernel(t, root, offset, init).value;
      var uses1 := KernelExact(t, uses, root, addrs, offset, init, t1);
      var v := (p + offset) % WORD % VA_LIMIT;
      NeverThroughABlock(t1.mem, root, addrs, init, offset, p);
      LowBitsMap(t1, root, (p + offset) % WORD, p);
      uses' := Map4KExact(t1, uses1, root, v, p);
      TakesTrans(t, uses, t1, uses1, t', uses', root, KernelPaths(init, offset), PtPaths(v));
      KernelGrows(t1.mem, t'.mem, uses1, root, addrs, offset, pages);
    }
  }

  /** The tables that the kernel's 4K pages need below the root. */
  function KernelPaths(pages: seq<nat>, offset: nat): set<seq<nat>> {
    if pages == [] then {} else
    KernelPaths(pages[..|pages| - 1], offset) + PtPaths((pages[|pages| - 1] + offset) % WORD % VA_LIMIT)
  }

  lemma {:induction false} KernelFitsIff(t: Tables, uses: Uses, root: nat, addrs: seq<nat>, offset: nat, pages: seq<nat>)
    requires Inv(t, uses) && IsRoot(uses, root) && BlocksFine(addrs) && BlocksMapped(t.mem, root, addrs)
    requires HigherHalf(pages, offset)
    ensures var ps := Paths(uses, root);
            MapKernel(t, root, offset, pages).Some? <==> |t.free| + |ps| >= |ps + KernelPaths(pages, offset)|
    decreases |pages|
  {
    hide Walk, BigAt, Map4K, PtFits, OnBlock, BothMapped, BlocksMapped, BlocksFine, KernelAt, Inv, Takes, PtPaths, Paths;
    var ps := Paths(uses, root);
    if pages == [] {
      assert ps + KernelPaths(pages, offset) == ps;
    } else {
      var init, p := pages[..|pages| - 1], pages[|pages| - 1];
      var v := (p + offset) % WORD % VA_LIMIT;
      KernelFitsIff(t, uses, root, addrs, offset, init);
      if MapKernel(t, root, offset, init).Some? {
        var t1 := MapKernel(t, root, offset, init).value;
        var uses1 := KernelExact(t, uses, root, addrs, offset, init, t1);
        NeverThroughABlock(t1.mem, root, addrs, init, offset, p);
        LowBitsMap(t1, root, (p + offset) % WORD, p);
        PtFitsIff(t1, uses1, root, v);
        FitsNext(t, uses, t1, uses1, root, KernelPaths(init, offset), PtPaths(v));
      } else {
        Subset(ps + KernelPaths(init, offset), ps + KernelPaths(pages, offset));
      }
    }
  }

  lemma KernelGrows(m: Mem, m': Mem, uses: Uses, root: nat, addrs: seq<nat>, offset: nat, pages: seq<nat>)
    requires pages != [] && IsRoot(uses, root) && BlocksFine(addrs) && HigherHalf(pages, offset)
    requires BothMapped(m, root, addrs, pages[..|pages| - 1], offset) && SameSizes(m, m', uses)
    requires var p := pages[|pages| - 1];
             Maps4K(m, m', uses, root, (p + offset) % WORD % VA_LIMIT, Frame(p))
    ensures BothMapped(m', root, addrs, pages, offset)
  {
    hide Walk, BigAt, OnBlock, Frame;
    var p := pages[|pages| - 1];
    var v := (p + offset) % WORD % VA_LIMIT;
    HighPage(p, offset);
    FrameOfPage(p);
    forall u: nat | u < VA_LIMIT
      ensures BigAt(m', root, u) == OnBlock(addrs, u)
      ensures Walk(m', root, u) == if OnBlock(addrs, u) then Some(u) else KernelAt(pages, offset, u)
    {
      assert BigAt(m', root, u) == BigAt(m, root, u);
      if u / PAGE == v / PAGE {
        SamePageHigh(u, v);
        LowBlocks(addrs, u);
      }
    }
  }

  lemma FrameOfPage(p: nat)
    requires p % PAGE == 0 && p < ADDR_LIMIT
    ensures Frame(p) == p
  {
    EntryDecodes(p, 0);
  }

  lemma SamePageHigh(u: nat, v: nat)
    requires u / PAGE == v / PAGE && HALF <= v
    ensures HALF <= u
  {
  }

  // ----- The whole build ---------------------------------------------------

  /** What the loader is given: a memory map below 2^47 and a kernel linked in the
      higher half. */
  ghost predicate MapFine(ds: seq<Desc>) {
    forall i :: 0 <= i < |ds| ==> ds[i].start + ds[i].pages * 4096 <= HALF
  }

  ghost predicate KernelFine(k: Kernel) {
    && k.pstart <= k.vstart && k.pend + 0xFFF < ADDR_LIMIT
    && WORD - HALF <= k.pstart / PAGE * PAGE + Offset(k)
    && k.pend + 0xFFF + Offset(k) < WORD
  }

  lemma DescBlocks(d: Desc, v: nat)
    requires d.start + d.pages * 4096 <= HALF
    ensures BlocksFine(Blocks(d))
    ensures d.start <= v < d.start + d.pages * 4096 ==> OnBlock(Blocks(d), v)
  {
    var end := d.start + d.pages * 4096;
    DivIs(end, WORD, 0, end);
    DivIs(end + 0x1F_FFFF, WORD, 0, end + 0x1F_FFFF);
    var lo, hi := RoundDown(d.start), RoundDown(end + 0x1F_FFFF);
    var bs, a := Blocks(d), d.start / BIG;
    assert lo == a * BIG && hi <= HALF;
    forall k | 0 <= k < |bs| ensures bs[k] % BIG == 0 && bs[k] < HALF && bs[k] / BIG == a + k {
      assert bs[k] == (a + k) * BIG;
      DivIs(bs[k], BIG, a + k, 0);
    }
    if d.start <= v < end {
      var k := v / BIG - a;
      assert v / BIG < (end + 0x1F_FFFF) / BIG;
      assert (hi - lo) / BIG == (end + 0x1F_FFFF) / BIG - a by {
        assert hi - lo == ((end + 0x1F_FFFF) / BIG - a) * BIG;
      }
      assert bs[k] / BIG == v / BIG;
    }
  }

  lemma OnBlockConcat(a: seq<nat>, b: seq<nat>, v: nat)
    ensures OnBlock(a, v) || OnBlock(b, v) <==> OnBlock(a + b, v)
  {
    var ab := a + b;
    if k :| 0 <= k < |ab| && ab[k] / BIG == v / BIG {
      assert if k < |a| then a[k] == ab[k] else b[k - |a|] == ab[k];
    }
    if k :| 0 <= k < |a| && a[k] / BIG == v / BIG { assert ab[k] == a[k]; }
    if k :| 0 <= k < |b| && b[k] / BIG == v / BIG { assert ab[|a| + k] == b[k]; }
  }

  lemma {:induction false} AllBlocks(ds: seq<Desc>, v: nat)
    requires MapFine(ds)
    ensures BlocksFine(BlocksOf(ds))
    ensures forall i :: 0 <= i < |ds| && ds[i].start <= v < ds[i].start + ds[i].pages * 4096 ==> OnBlock(BlocksOf(ds), v)
  {
    if ds != [] {
      var init, d := ds[..|ds| - 1], ds[|ds| - 1];
      AllBlocks(init, v);
      DescBlocks(d, v);
      OnBlockConcat(BlocksOf(init), Blocks(d), v);
      forall i | 0 <= i < |ds| && ds[i].start <= v < ds[i].start + ds[i].pages * 4096 ensures OnBlock(BlocksOf(ds), v) {
        assert i < |init| ==> init[i] == ds[i];
      }
    }
  }

  lemma KernelPagesFine(k: Kernel)
    requires KernelFine(k)
    ensures HigherHalf(KernelPages(k), Offset(k))
    ensures forall i :: 0 <= i < |KernelPages(k)| ==> KernelPages(k)[i] == (k.pstart / PAGE + i) * PAGE
  {
    DivIs(k.pend + 0xFFF, WORD, 0, k.pend + 0xFFF);
    var a, hi, ps := k.pstart / PAGE, (k.pend + 0xFFF) / PAGE * PAGE, KernelPages(k);
    forall i | 0 <= i < |ps|
      ensures ps[i] == (a + i) * PAGE && ps[i] % PAGE == 0 && ps[i] < hi
    {
      assert ps[i] == a * PAGE + i * PAGE;
      assert (i + 1) * PAGE <= hi - a * PAGE;
      DivIs(ps[i], PAGE, a + i, 0);
    }
  }

  lemma VirtualPage(p: nat, offset: nat)
    requires WORD - HALF <= p + offset < WORD
    ensures (p + offset) % WORD % VA_LIMIT / PAGE == (p + offset) / PAGE - 0xFFFF * 0x10_0000_0000
  {
    HighPage(p, offset);
    var x := p + offset;
    DivIs(x, VA_LIMIT, 0xFFFF, x - 0xFFFF * VA_LIMIT);
    var y := x - 0xFFFF * VA_LIMIT;
    DivIs(x, PAGE, 0xFFFF * 0x10_0000_0000 + y / PAGE, y % PAGE);
  }

  /** Every kernel page is found again at its own address: no later page hides it. */
  lemma {:induction false} KernelFound(pages: seq<nat>, offset: nat, a: nat, i: nat, u: nat)
    requires HigherHalf(pages, offset) && i < |pages|
    requires forall j :: 0 <= j < |pages| ==> pages[j] == (a + j) * PAGE
    requires u / PAGE == (pages[i] + offset) % WORD % VA_LIMIT / PAGE
    ensures KernelAt(pages, offset, u) == Some(pages[i] + u % PAGE)
    decreases |pages|
  {
    var last := |pages| - 1;
    if i < last {
      VirtualPage(pages[i], offset);
      VirtualPage(pages[last], offset);
      var x, d := pages[i] + offset, last - i;
      assert pages[last] + offset == x + d * PAGE;
      DivIs(x + d * PAGE, PAGE, x / PAGE + d, x % PAGE);
      KernelFound(pages[..last], offset, a, i, u);
    }
  }

  lemma {:induction false} KernelOnly(pages: seq<nat>, offset: nat, u: nat)
    requires KernelAt(pages, offset, u).Some?
    ensures exists i :: 0 <= i < |pages| && LinksTo(pages[i], offset, u) && KernelAt(pages, offset, u) == Some(pages[i] + u % PAGE)
    decreases |pages|
  {
    var last := |pages| - 1;
    if !LinksTo(pages[last], offset, u) {
      KernelOnly(pages[..last], offset, u);
      var i :| 0 <= i < last && LinksTo(pages[..last][i], offset, u)
               && KernelAt(pages[..last], offset, u) == Some(pages[..last][i] + u % PAGE);
      assert pages[i] == pages[..last][i];
    }
  }

  /** A completed build.  The pool pages form one tree; the tables translate the
      memory map's blocks to themselves, the pages at the kernel's link addresses into the
      pages it was loaded to, and nothing else. */
  lemma BuildExact(t: Tables, ds: seq<Desc>, k: Kernel, t': Tables) returns (uses: Uses)
    requires FreeOk(t.free, map[]) && MapFine(ds) && KernelFine(k) && Completed(t, ds, k) == Some(t')
    ensures t.free != [] && Inv(t', uses) && IsRoot(uses, t.free[0])
    ensures BothMapped(t'.mem, t.free[0], BlocksOf(ds), KernelPages(k), Offset(k))
    ensures forall v: nat :: (Walk(t'.mem, t.free[0], v).Some? ==> CanWrite(t'.mem, t.free[0], v)) && !CanUser(t'.mem, t.free[0], v)
  {
    hide Walk, BigAt, MapBlocks, MapKernel, OnBlock, CanWrite, CanUser;
    var root := t.free[0];
    AllBlocks(ds, 0);
    KernelPagesFine(k);
    AllocKeeps(t, map[], Table(root, []));
    var uses1 := UsesAfterAlloc(t, map[], Table(root, []));
    var t1 := Alloc(t).0;
    assert BlocksMapped(t1.mem, root, []) by { NoBlocks(); }
    var t2 := MapBlocks(t1, root, BlocksOf(ds)).value;
    var uses2 := BlocksExact(t1, uses1, root, BlocksOf(ds), t2);
    uses := KernelExact(t2, uses2, root, BlocksOf(ds), Offset(k), KernelPages(k), t');
    forall v: nat ensures (Walk(t'.mem, root, v).Some? ==> CanWrite(t'.mem, root, v)) && !CanUser(t'.mem, root, v) {
      TranslatedIsWritable(t'.mem, uses, root, v);
    }
  }

  /** How many pages a build takes: the root and one for every table under it. */
  ghost function PoolNeeded(ds: seq<Desc>, k: Kernel): nat
    requires k.pstart <= k.vstart
  {
    1 + |BlockPaths(BlocksOf(ds)) + KernelPaths(KernelPages(k), Offset(k))|
  }

  /** The build completes if and only if the pool has a page for the root and for every
      table under it; otherwise the loader halts. */
  lemma CompletesIff(t: Tables, ds: seq<Desc>, k: Kernel)
    requires FreeOk(t.free, map[]) && MapFine(ds) && KernelFine(k)
    ensures Completed(t, ds, k).Some? <==> |t.free| >= PoolNeeded(ds, k)
  {
    hide Walk, BigAt, MapBlocks, MapKernel, OnBlock, BlocksOf, KernelPages, BlockPaths, KernelPaths, Paths, Takes, BlocksMapped, HigherHalf;
    if t.free != [] {
      var root, addrs, pages, offset := t.free[0], BlocksOf(ds), KernelPages(k), Offset(k);
      var uses1, t1 := UsesAfterAlloc(t, map[], Table(root, [])), Alloc(t).0;
      var a, b := BlockPaths(addrs), KernelPaths(pages, offset);
      AllBlocks(ds, 0);
      KernelPagesFine(k);
      AllocKeeps(t, map[], Table(root, []));
      NewRootHasNoTables(t, map[]);
      assert BlocksMapped(t1.mem, root, []) by { NoneOnBlocks(t1.mem, root); }
      BlocksFitIff(t1, uses1, root, addrs);
      RootApart(addrs, pages, offset);
      if MapBlocks(t1, root, addrs).Some? {
        var t2 := MapBlocks(t1, root, addrs).value;
        var uses2 := BlocksExact(t1, uses1, root, addrs, t2);
        KernelFitsIff(t2, uses2, root, addrs, offset, pages);
        FitsNext(t1, uses1, t2, uses2, root, a, b);
      } else {
        Subset({[]} + a, {[]} + (a + b));
      }
    }
  }

  lemma NoneOnBlocks(m: Mem, root: nat)
    requires forall v: nat :: Walk(m, root, v) == None && !BigAt(m, root, v)
    ensures BlocksMapped(m, root, [])
  {
    hide Walk, BigAt;
    NoBlocks();
  }

  lemma {:induction false} NoRootInBlocks(addrs: seq<nat>)
    ensures [] !in BlockPaths(addrs)
  {
    if addrs != [] { NoRootInBlocks(addrs[..|addrs| - 1]); }
  }

  lemma {:induction false} NoRootInKernel(pages: seq<nat>, offset: nat)
    ensures [] !in KernelPaths(pages, offset)
  {
    hide I2, I3, I4;
    if pages != [] { NoRootInKernel(pages[..|pages| - 1], offset); }
  }

  lemma RootApart(addrs: seq<nat>, pages: seq<nat>, offset: nat)
    ensures var all, one: set<seq<nat>> := BlockPaths(addrs) + KernelPaths(pages, offset), {[]}; |one + all| == 1 + |all|
  {
    hide BlockPaths, KernelPaths;
    NoRootInBlocks(addrs);
    NoRootInKernel(pages, offset);
    var all, one: set<seq<nat>> := BlockPaths(addrs) + KernelPaths(pages, offset), {[]};
    assert |one + all| == |one| + |all|;
  }

  lemma NoBlocks()
    ensures forall v :: !OnBlock([], v)
  {
  }

  /** Every byte the firmware reported translates to itself. */
  lemma MemoryIsIdentity(t: Tables, ds: seq<Desc>, k: Kernel, t': Tables, i: nat, a: nat)
    requires FreeOk(t.free, map[]) && MapFine(ds) && KernelFine(k) && Completed(t, ds, k) == Some(t')
    requires i < |ds| && ds[i].start <= a < ds[i].start + ds[i].pages * 4096
    ensures t.free != [] && Walk(t'.mem, t.free[0], a) == Some(a) && CanWrite(t'.mem, t.free[0], a)
  {
    hide Walk, BigAt, Completed, OnBlock, BlocksOf, CanWrite, CanUser;
    var uses := BuildExact(t, ds, k, t');
    AllBlocks(ds, a);
  }

  /** Every address on the link page of a kernel page translates into that kernel page, at
      the address's own offset. */
  lemma KernelIsMapped(t: Tables, ds: seq<Desc>, k: Kernel, t': Tables, i: nat, v: nat)
    requires FreeOk(t.free, map[]) && MapFine(ds) && KernelFine(k) && Completed(t, ds, k) == Some(t')
    requires i < |KernelPages(k)| && v / PAGE == (KernelPages(k)[i] + Offset(k)) / PAGE
    ensures t.free != [] && Walk(t'.mem, t.free[0], v) == Some(KernelPages(k)[i] + v % PAGE) && CanWrite(t'.mem, t.free[0], v)
  {
    hide Walk, BigAt, Completed, OnBlock, BlocksOf, KernelPages, KernelAt, CanWrite, CanUser;
    var uses := BuildExact(t, ds, k, t');
    KernelPagesFine(k);
    var p, offset := KernelPages(k)[i], Offset(k);
    var u := v % VA_LIMIT;
    LowBitsWalk(t'.mem, t.free[0], v);
    LowBits(v);
    LowBits(p + offset);
    HighPage(p, offset);
    KernelFound(KernelPages(k), offset, k.pstart / PAGE, i, u);
    AllBlocks(ds, u);
    SamePageHigh(u, (p + offset) % VA_LIMIT);
    LowBlocks(BlocksOf(ds), u);
  }

  lemma KernelByteIsMapped(t: Tables, ds: seq<Desc>, k: Kernel, t': Tables, b: nat)
    requires FreeOk(t.free, map[]) && MapFine(ds) && KernelFine(k) && Completed(t, ds, k) == Some(t')
    requires k.pstart <= b < k.pend && (k.vstart - k.pstart) % 4096 == 0
    ensures t.free != [] && var v := k.vstart + (b - k.pstart);
            Walk(t'.mem, t.free[0], v) == Some(b) && CanWrite(t'.mem, t.free[0], v)
  {
    hide Walk, CanWrite, Completed, MapFine, KernelFine;
    KernelPagesFine(k);
    var i, v := b / PAGE - k.pstart / PAGE, b + Offset(k);
    PageOfByte(k, b, i);
    KernelIsMapped(t, ds, k, t', i, v);
  }

  lemma PageOfByte(k: Kernel, b: nat, i: nat)
    requires KernelFine(k) && k.pstart <= b < k.pend && Offset(k) % PAGE == 0 && i == b / PAGE - k.pstart / PAGE
    ensures i < |KernelPages(k)| && KernelPages(k)[i] == b / PAGE * PAGE
    ensures (b + Offset(k)) / PAGE == (KernelPages(k)[i] + Offset(k)) / PAGE && (b + Offset(k)) % PAGE == b % PAGE
  {
    KernelPagesFine(k);
    DivIs(k.pend + 0xFFF, WORD, 0, k.pend + 0xFFF);
    var lo, hi, o := k.pstart / PAGE, (k.pend + 0xFFF) / PAGE, Offset(k) / PAGE;
    assert |KernelPages(k)| == hi - lo by { DivIs(hi * PAGE - lo * PAGE, PAGE, hi - lo, 0); }
    DivIs(b + Offset(k), PAGE, b / PAGE + o, b % PAGE);
    DivIs(b / PAGE * PAGE + Offset(k), PAGE, b / PAGE + o, 0);
  }

  /** A link address leads to an offset in a page like its own, or nowhere. */
  lemma KernelKeepsOffset(t: Tables, ds: seq<Desc>, k: Kernel, t': Tables, b: nat)
    requires FreeOk(t.free, map[]) && MapFine(ds) && KernelFine(k) && Completed(t, ds, k) == Some(t')
    requires k.pstart <= b < k.pend && t.free != [] && Walk(t'.mem, t.free[0], b + Offset(k)) == Some(b)
    ensures b % PAGE == (b + Offset(k)) % PAGE
  {
    hide Walk, BigAt, Completed, OnBlock, BlocksOf, KernelPages, KernelAt, BothMapped, MapFine, LinksTo, CanWrite, CanUser;
    var uses := BuildExact(t, ds, k, t');
    var v := b + Offset(k);
    var u := v % VA_LIMIT;
    LowBitsWalk(t'.mem, t.free[0], v);
    LowBits(v);
    HighPage(b, Offset(k));
    AllBlocks(ds, 0);
    LowBlocks(BlocksOf(ds), u);
    KernelPagesFine(k);
    assert KernelAt(KernelPages(k), Offset(k), u) == Some(b) by { BothMappedAt(t'.mem, t.free[0], BlocksOf(ds), KernelPages(k), Offset(k), u); }
    KernelOnly(KernelPages(k), Offset(k), u);
    var i :| 0 <= i < |KernelPages(k)| && LinksTo(KernelPages(k)[i], Offset(k), u)
             && KernelAt(KernelPages(k), Offset(k), u) == Some(KernelPages(k)[i] + u % PAGE);
    DivIs(b, PAGE, k.pstart / PAGE + i, u % PAGE);
  }

  lemma BothMappedAt(m: Mem, root: nat, addrs: seq<nat>, pages: seq<nat>, offset: nat, u: nat)
    requires BothMapped(m, root, addrs, pages, offset) && u < VA_LIMIT && !OnBlock(addrs, u)
    ensures Walk(m, root, u) == KernelAt(pages, offset, u)
  {
    hide Walk, BigAt;
  }

  /** Every byte of the kernel is found at its link address if and only if the distance
      between the two is a whole number of pages. */
  lemma KernelMappedIff(t: Tables, ds: seq<Desc>, k: Kernel, t': Tables)
    requires FreeOk(t.free, map[]) && MapFine(ds) && KernelFine(k) && Completed(t, ds, k) == Some(t') && t.free != []
    ensures (forall b: nat :: k.pstart <= b < k.pend ==> Walk(t'.mem, t.free[0], k.vstart + (b - k.pstart)) == Some(b)) <==>
            k.pstart >= k.pend || (k.vstart - k.pstart) % 4096 == 0
  {
    hide Walk, Completed, MapFine, CanWrite, CanUser;
    if Offset(k) % PAGE == 0 {
      forall b: nat | k.pstart <= b < k.pend ensures Walk(t'.mem, t.free[0], k.vstart + (b - k.pstart)) == Some(b) {
        KernelByteIsMapped(t, ds, k, t', b);
      }
    } else if k.pstart < k.pend {
      if Walk(t'.mem, t.free[0], k.pstart + Offset(k)) == Some(k.pstart) {
        KernelKeepsOffset(t, ds, k, t', k.pstart);
        OffsetIsWhole(k.pstart, Offset(k));
      }
    }
  }

  lemma OffsetIsWhole(b: nat, o: nat)
    requires b % PAGE == (b + o) % PAGE
    ensures o % PAGE == 0
  {
    DivIs(o, PAGE, (b + o) / PAGE - b / PAGE, 0);
  }

  /** A kernel linked half a page off: its first byte is found half a page further on. */
  lemma MisalignedKernelIsShifted(t: Tables, ds: seq<Desc>, k: Kernel, t': Tables)
    requires k == Kernel(0x10_0000, 0x10_2000, 0xFFFF_FFFF_8000_0800)
    requires FreeOk(t.free, map[]) && MapFine(ds) && Completed(t, ds, k) == Some(t')
    ensures KernelFine(k) && t.free != [] && Walk(t'.mem, t.free[0], k.vstart) == Some(0x10_0800)
  {
    hide Walk, Completed, MapFine, CanWrite, CanUser;
    KernelPagesFine(k);
    DivIs(0x10_2FFF, WORD, 0, 0x10_2FFF);
    KernelIsMapped(t, ds, k, t', 0, k.vstart);
  }

  function BlockNumber(a: nat): nat { a / BIG }

  /** The 2MB block of `u` holds a byte of the descriptor. */
  ghost predicate SharesBlock(d: Desc, u: nat) {
    exists a: nat :: d.start <= a < d.start + d.pages * 4096 && BlockNumber(a) == BlockNumber(u)
  }

  /** The loop visits exactly the blocks that hold a byte of the descriptor. */
  lemma BlocksAreShared(d: Desc, u: nat)
    requires d.start + d.pages * 4096 <= HALF
    ensures OnBlock(Blocks(d), u) <==> SharesBlock(d, u)
  {
    if SharesBlock(d, u) {
      var a: nat :| d.start <= a < d.start + d.pages * 4096 && BlockNumber(a) == BlockNumber(u);
      DescBlocks(d, a);
      var k :| 0 <= k < |Blocks(d)| && Blocks(d)[k] / BIG == a / BIG;
      assert Blocks(d)[k] / BIG == u / BIG;
    }
    if OnBlock(Blocks(d), u) {
      BlockHasByte(d, u);
    }
  }

  lemma BlockHasByte(d: Desc, u: nat)
    requires d.start + d.pages * 4096 <= HALF && OnBlock(Blocks(d), u)
    ensures SharesBlock(d, u)
  {
    var end := d.start + d.pages * 4096;
    DivIs(end, WORD, 0, end);
    DivIs(end + 0x1F_FFFF, WORD, 0, end + 0x1F_FFFF);
    var lo, hi := d.start / BIG, (end + 0x1F_FFFF) / BIG;
    assert RoundDown(end + 0x1F_FFFF) - RoundDown(d.start) == (hi - lo) * BIG;
    assert |Blocks(d)| == hi - lo by { DivIs((hi - lo) * BIG, BIG, hi - lo, 0); }
    var k :| 0 <= k < |Blocks(d)| && Blocks(d)[k] / BIG == u / BIG;
    DivIs((lo + k) * BIG, BIG, lo + k, 0);
    var first := (lo + k) * BIG;
    assert first < end;
    var a := if d.start >= first then d.start else first;
    assert d.start <= a < end && BlockNumber(a) == BlockNumber(u);
  }

  lemma {:induction false} AllBlocksAreShared(ds: seq<Desc>, u: nat)
    requires MapFine(ds)
    ensures OnBlock(BlocksOf(ds), u) <==> exists i :: 0 <= i < |ds| && SharesBlock(ds[i], u)
  {
    if ds != [] {
      hide SharesBlock, Blocks;
      var init, d := ds[..|ds| - 1], ds[|ds| - 1];
      AllBlocksAreShared(init, u);
      BlocksAreShared(d, u);
      OnBlockConcat(BlocksOf(init), Blocks(d), u);
      if i :| 0 <= i < |ds| && SharesBlock(ds[i], u) {
        assert i < |init| ==> SharesBlock(init[i], u);
      }
      if i :| 0 <= i < |init| && SharesBlock(init[i], u) {
        assert SharesBlock(ds[i], u);
      }
    }
  }

  /** Page number `n` is one of the kernel's: it starts before the image ends and ends after
      the image starts. */
  predicate KernelPage(k: Kernel, n: nat) { k.pstart < (n + 1) * 4096 && n * 4096 < k.pend }

  /** `u` is on the page at which physical page `n` is linked. */
  predicate LinkPage(k: Kernel, n: nat, u: nat) {
    k.pstart <= k.vstart && (n * 4096 + (k.vstart - k.pstart)) % 0x1_0000_0000_0000 / 4096 == u / 4096
  }

  lemma PageNumber(k: Kernel, i: nat, u: nat)
    requires KernelFine(k) && i < |KernelPages(k)| && LinksTo(KernelPages(k)[i], Offset(k), u)
    ensures var n := k.pstart / 4096 + i; KernelPages(k)[i] == n * 4096 && KernelPage(k, n) && LinkPage(k, n, u)
  {
    KernelPagesFine(k);
    DivIs(k.pend + 0xFFF, WORD, 0, k.pend + 0xFFF);
    var lo, hi, n := k.pstart / 4096, (k.pend + 0xFFF) / 4096, k.pstart / 4096 + i;
    assert |KernelPages(k)| == hi - lo by { DivIs(hi * 4096 - lo * 4096, 4096, hi - lo, 0); }
    assert n < hi;
    DivIs(n * 4096 + Offset(k), WORD, 0, n * 4096 + Offset(k));
  }

  /** Nothing else is mapped: an address that translates either translates to itself and
      its 2MB block holds a byte of a descriptor, or it is on the link address of a kernel
      page and translates into that page. */
  lemma NothingElseIsMapped(t: Tables, ds: seq<Desc>, k: Kernel, t': Tables, u: nat)
    requires FreeOk(t.free, map[]) && MapFine(ds) && KernelFine(k) && Completed(t, ds, k) == Some(t')
    requires u < VA_LIMIT && t.free != [] && Walk(t'.mem, t.free[0], u).Some?
    ensures || (Walk(t'.mem, t.free[0], u) == Some(u) && exists i :: 0 <= i < |ds| && SharesBlock(ds[i], u))
            || exists n: nat :: KernelPage(k, n) && LinkPage(k, n, u) && Walk(t'.mem, t.free[0], u) == Some(n * 4096 + u % 4096)
  {
    hide Walk, BigAt, Completed, OnBlock, BlocksOf, KernelPages, KernelAt, SharesBlock, LinksTo, CanWrite, CanUser;
    var uses := BuildExact(t, ds, k, t');
    AllBlocksAreShared(ds, u);
    if !OnBlock(BlocksOf(ds), u) {
      KernelOnly(KernelPages(k), Offset(k), u);
      var i :| 0 <= i < |KernelPages(k)| && LinksTo(KernelPages(k)[i], Offset(k), u)
               && Walk(t'.mem, t.free[0], u) == Some(KernelPages(k)[i] + u % PAGE);
      PageNumber(k, i, u);
    }
  }

  // ----- The loader as it runs ---------------------------------------------

  function PoolPages(base: nat, used: nat, total: nat): seq<nat> {
    if total <= used then [] else seq(total - used, k requires k >= 0 => base + (used + k) * 4096)
  }

  /** A page-aligned pool of real memory hands out every page once. */
  lemma PoolIsFine(base: nat, total: nat)
    requires base % PAGE == 0 && 0 < base && base + total * 4096 <= ADDR_LIMIT
    ensures FreeOk(PoolPages(base, 0, total), map[])
  {
    var ps := PoolPages(base, 0, total);
    forall k | 0 <= k < |ps| ensures PageAddr(ps[k]) {
      DivIs(ps[k], PAGE, base / PAGE + k, 0);
    }
  }

  class Loader {
    var mem: Mem
    const base: nat
    const total: nat
    var used: nat

    ghost function View(): Tables
      reads this
    {
      Tables(mem, PoolPages(base, used, total))
    }

    constructor (memory: Mem, base: nat, total: nat)
      ensures View() == Tables(memory, PoolPages(base, 0, total))
    {
      mem, this.base, this.total, used := memory, base, total, 0;
    }

    /** One zeroed pool page; `ok` is false where the loader halts. */
    method Next() returns (ok: bool, page: nat)
      modifies this
      ensures ok == (old(View().free) != [])
      ensures ok ==> View() == Alloc(old(View())).0 && page == Alloc(old(View())).1
    {
      if used >= total { return false, 0; }
      page := base + used * 4096;
      assert PoolPages(base, used, total)[1..] == PoolPages(base, used + 1, total);
      used := used + 1;
      mem := mem[page := ZeroPage()];
      ok := true;
    }

    method EnsureTable(t: nat, i: nat) returns (ok: bool, child: nat)
      requires i < 512
      modifies this
      ensures ok == CanEnsure(old(View()), t, i)
      ensures ok ==> View() == Ensure(old(View()), t, i) && child == Child(View(), t, i)
    {
      if Read(mem, t, i) % 2 == 0 {
        var page;
        ok, page := Next();
        if !ok { return false, 0; }
        mem := Write(mem, t, i, page + 3);
      }
      return true, Frame(Read(mem, t, i));
    }

    method WalkToPd(pml4: nat, v: nat) returns (ok: bool, pd: nat)
      modifies this
      ensures ok == PdFits(old(View()), pml4, v)
      ensures ok ==> (View(), pd) == EnsurePd(old(View()), pml4, v)
    {
      var pdpt;
      ok, pdpt := EnsureTable(pml4, I4(v));
      if !ok { return false, 0; }
      ok, pd := EnsureTable(pdpt, I3(v));
    }

    method MapBig(pml4: nat, v: nat, pa: nat) returns (ok: bool)
      modifies this
      ensures ok == PdFits(old(View()), pml4, v)
      ensures ok ==> View() == Map2M(old(View()), pml4, v, pa)
    {
      var pd;
      ok, pd := WalkToPd(pml4, v);
      if !ok { return; }
      mem := Write(mem, pd, I2(v), BigFrame(pa) + 131);
    }

    method MapSmall(pml4: nat, v: nat, pa: nat) returns (ok: bool)
      modifies this
      ensures ok == PtFits(old(View()), pml4, v)
      ensures ok ==> View() == Map4K(old(View()), pml4, v, pa)
    {
      var pd, pt;
      ok, pd := WalkToPd(pml4, v);
      if !ok { return; }
      ok, pt := EnsureTable(pd, I2(v));
      if !ok { return; }
      mem := Write(mem, pt, I1(v), Frame(pa) + 3);
    }

    method MapDesc(pml4: nat, d: Desc, ghost done: seq<nat>, ghost t: Tables) returns (ok: bool)
      requires MapBlocks(t, pml4, done) == Some(View())
      modifies this
      ensures ok == MapBlocks(t, pml4, done + Blocks(d)).Some?
      ensures ok ==> MapBlocks(t, pml4, done + Blocks(d)) == Some(View())
    {
      hide Map2M, PdFits, MapBlocks;
      if d.pages == 0 {
        assert done + Blocks(d) == done;
        return true;
      }
      var lo, hi := RoundDown(d.start), RoundDown((DescEnd(d) + 0x1F_FFFF) % WORD);
      var addr := lo;
      ghost var k := 0;
      assert done + Blocks(d)[..0] == done;
      while addr < hi
        invariant k <= |Blocks(d)| && addr == lo + k * BIG && (lo <= hi ==> addr <= hi)
        invariant hi <= lo ==> Blocks(d) == [] && k == 0
        invariant lo < hi ==> |Blocks(d)| * BIG == hi - lo
        invariant MapBlocks(t, pml4, done + Blocks(d)[..k]) == Some(View())
        decreases hi - addr
      {
        assert k < |Blocks(d)|;
        ghost var now, next := done + Blocks(d)[..k], done + Blocks(d)[..k + 1];
        assert next[|next| - 1] == addr && next[..|next| - 1] == now;
        BlocksStep(t, pml4, next);
        ok := MapBig(pml4, addr, addr);
        if !ok {
          assert done + Blocks(d) == next + Blocks(d)[k + 1..];
          BlocksHalted(t, pml4, next, Blocks(d)[k + 1..]);
          return;
        }
        addr, k := addr + 0x20_0000, k + 1;
      }
      assert Blocks(d)[..k] == Blocks(d);
      return true;
    }

    method Build(ds: seq<Desc>, kernel: Kernel) returns (pml4: Option<nat>)
      requires kernel.pstart <= kernel.vstart
      modifies this
      ensures pml4.Some? == Completed(old(View()), ds, kernel).Some?
      ensures pml4.Some? ==>
                && Completed(old(View()), ds, kernel) == Some(View())
                && old(View().free) != [] && pml4.value == old(View().free)[0]
    {
      hide Map4K, PtFits, MapBlocks, MapKernel;
      var ok, root := Next();
      if !ok { return None; }
      ghost var t := View();
      assert BlocksOf(ds[..0]) == [];
      BlocksStart(t, root);
      for i := 0 to |ds|
        invariant MapBlocks(t, root, BlocksOf(ds[..i])) == Some(View())
      {
        assert ds[..i + 1][..i] == ds[..i];
        ok := MapDesc(root, ds[i], BlocksOf(ds[..i]), t);
        if !ok {
          BlocksOfPrefix(ds, i + 1);
          BlocksHalted(t, root, BlocksOf(ds[..i + 1]), BlocksOf(ds)[|BlocksOf(ds[..i + 1])|..]);
          return None;
        }
      }
      assert ds[..|ds|] == ds;
      ok := MapKernelPages(root, kernel, View());
      return if ok then Some(root) else None;
    }

    method MapKernelPages(pml4: nat, kernel: Kernel, ghost t: Tables) returns (ok: bool)
      requires kernel.pstart <= kernel.vstart && t == View()
      modifies this
      ensures ok == MapKernel(t, pml4, Offset(kernel), KernelPages(kernel)).Some?
      ensures ok ==> MapKernel(t, pml4, Offset(kernel), KernelPages(kernel)) == Some(View())
    {
      hide Map4K, PtFits, MapKernel;
      var offset := kernel.vstart - kernel.pstart;
      var lo, hi := kernel.pstart / PAGE * PAGE, (kernel.pend + 0xFFF) % WORD / PAGE * PAGE;
      var paddr := lo;
      ghost var ps, k := KernelPages(kernel), 0;
      assert ps[..0] == [];
      KernelStart(t, pml4, offset);
      while paddr < hi
        invariant k <= |ps| && paddr == lo + k * PAGE && (lo <= hi ==> paddr <= hi)
        invariant hi <= lo ==> ps == [] && k == 0
        invariant lo < hi ==> |ps| * PAGE == hi - lo
        invariant MapKernel(t, pml4, offset, ps[..k]) == Some(View())
        decreases hi - paddr
      {
        assert k < |ps|;
        ghost var next := ps[..k + 1];
        assert next[|next| - 1] == paddr && next[..|next| - 1] == ps[..k];
        KernelStep(t, pml4, offset, next);
        ok := MapSmall(pml4, (paddr + offset) % WORD, paddr);
        if !ok {
          assert ps == next + ps[k + 1..];
          KernelHalted(t, pml4, offset, next, ps[k + 1..]);
          return;
        }
        paddr, k := paddr + 0x1000, k + 1;
      }
      assert ps[..k] == ps;
      return true;
    }
  }

  lemma BlocksStart(t: Tables, root: nat)
    ensures MapBlocks(t, root, []) == Some(t)
  {
  }

  lemma KernelStart(t: Tables, root: nat, offset: nat)
    ensures MapKernel(t, root, offset, []) == Some(t)
  {
  }

  lemma BlocksStep(t: Tables, root: nat, addrs: seq<nat>)
    requires addrs != []
    ensures var a := addrs[|addrs| - 1];
            MapBlocks(t, root, addrs) ==
            match MapBlocks(t, root, addrs[..|addrs| - 1])
            case None => None
            case Some(t1) => if PdFits(t1, root, a) then Some(Map2M(t1, root, a, a)) else None
  {
  }

  lemma KernelStep(t: Tables, root: nat, offset: nat, pages: seq<nat>)
    requires pages != []
    ensures var p := pages[|pages| - 1];
            MapKernel(t, root, offset, pages) ==
            match MapKernel(t, root, offset, pages[..|pages| - 1])
            case None => None
            case Some(t1) =>
              if PtFits(t1, root, (p + offset) % WORD) then Some(Map4K(t1, root, (p + offset) % WORD, p)) else None
  {
  }

  /** Once halted, always halted. */
  lemma {:induction false} BlocksHalted(t: Tables, root: nat, a: seq<nat>, b: seq<nat>)
    requires MapBlocks(t, root, a) == None
    ensures MapBlocks(t, root, a + b) == None
    decreases |b|
  {
    if b == [] {
      assert a + b == a;
    } else {
      BlocksHalted(t, root, a, b[..|b| - 1]);
      assert (a + b)[..|a + b| - 1] == a + b[..|b| - 1];
    }
  }

  lemma {:induction false} KernelHalted(t: Tables, root: nat, offset: nat, a: seq<nat>, b: seq<nat>)
    requires MapKernel(t, root, offset, a) == None
    ensures MapKernel(t, root, offset, a + b) == None
    decreases |b|
  {
    if b == [] {
      assert a + b == a;
    } else {
      KernelHalted(t, root, offset, a, b[..|b| - 1]);
      assert (a + b)[..|a + b| - 1] == a + b[..|b| - 1];
    }
  }

  lemma {:induction false} BlocksOfPrefix(ds: seq<Desc>, i: nat)
    requires i <= |ds|
    ensures |BlocksOf(ds[..i])| <= |BlocksOf(ds)|
    ensures BlocksOf(ds) == BlocksOf(ds[..i]) + BlocksOf(ds)[|BlocksOf(ds[..i])|..]
  {
    if i < |ds| {
      BlocksOfPrefix(ds[..|ds| - 1], i);
      assert ds[..|ds| - 1][..i] == ds[..i];
    } else {
      assert ds[..i] == ds;
    }
  }
}
