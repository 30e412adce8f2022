/** Physical memory, the x86-64 page-table entry format and the on-demand
    four-level table builder that both the IOMMU driver and the boot loader use.

    `Walk` is the hardware: it reads memory and nothing else.  `Ensure`, `Map4K`
    and `Map2M` are the software that writes the tables.  `TreeInv` says that the
    table pages form a forest: a ghost map gives each table page the one root and
    the one path of slots that lead to it. */
module PageTables {
  import opened Arith
  import opened Options

  const PAGE: nat := 4096
  const BIG: nat := 0x20_0000
  const ADDR_LIMIT: nat := 0x10_0000_0000_0000   // 2^52, the top of both address masks
  const VA_LIMIT: nat := 0x1_0000_0000_0000      // 2^48, what four levels can index

  // ----- Memory -----------------------------------------------------------

  type Page = s: seq<nat> | |s| == 512 witness seq(512, _ => 0)

  function ZeroPage(): (p: Page)
    ensures forall i :: 0 <= i < 512 ==> p[i] == 0
  {
    seq(512, _ => 0)
  }

  /** Physical memory by page address; a page never written reads as zero. */
  type Mem = map<nat, Page>

  function Read(m: Mem, page: nat, i: nat): nat
    requires i < 512
  {
    if page in m then m[page][i] else 0
  }

  function Write(m: Mem, page: nat, i: nat, w: nat): Mem
    requires i < 512
  {
    m[page := (if page in m then m[page] else ZeroPage())[i := w]]
  }

  // ----- Entry format -----------------------------------------------------

  predicate Present(w: nat) { w % 2 == 1 }

  predicate Writable(w: nat) { (w / 2) % 2 == 1 }

  predicate User(w: nat) { (w / 4) % 2 == 1 }

  predicate Huge(w: nat) { (w / 128) % 2 == 1 }

  function Frame(w: nat): nat { w % ADDR_LIMIT / PAGE * PAGE }

  function BigFrame(w: nat): nat { w % ADDR_LIMIT / BIG * BIG }

  /** `page | PRESENT | WRITABLE` for a page-aligned `page`. */
  function TableEntry(page: nat): nat { page + 3 }

  /** `(paddr & ADDR_MASK) | PRESENT | WRITABLE`. */
  function LeafEntry(paddr: nat): nat { Frame(paddr) + 3 }

  /** `(paddr & ADDR_MASK_2MB) | PRESENT | WRITABLE | HUGE`. */
  function BigEntry(paddr: nat): nat { BigFrame(paddr) + 131 }

  predicate PageAddr(p: nat) { 0 < p < ADDR_LIMIT && p % PAGE == 0 }

  lemma EntryDecodes(p: nat, flags: nat)
    requires p < ADDR_LIMIT && p % PAGE == 0 && flags < 128
    ensures Present(p + flags) == Present(flags) && !Huge(p + flags) && Frame(p + flags) == p
    ensures (p + flags) % 4096 == flags && p + flags < ADDR_LIMIT
  {
    var k := p / PAGE;
    assert p == k * PAGE;
    DivIs(p + flags, 128, k * 32, flags);
    DivIs(p + flags, PAGE, k, flags);
    DivIs(p + flags, 2, k * 2048 + flags / 2, flags % 2);
    DivIs(k * 32, 2, k * 16, 0);
    DivIs(p + flags, ADDR_LIMIT, 0, p + flags);
  }

  lemma TableEntryDecodes(p: nat)
    requires p < ADDR_LIMIT && p % PAGE == 0
    ensures Present(TableEntry(p)) && !Huge(TableEntry(p)) && Frame(TableEntry(p)) == p && Plain(TableEntry(p))
  {
    EntryDecodes(p, 3);
  }

  /** `page | PRESENT`, as in a root or context entry. */
  lemma ContextEntryDecodes(p: nat)
    requires p < ADDR_LIMIT && p % PAGE == 0
    ensures Present(p + 1) && Frame(p + 1) == p
  {
    EntryDecodes(p, 1);
  }

  lemma LeafEntryDecodes(pa: nat)
    ensures Present(LeafEntry(pa)) && Frame(LeafEntry(pa)) == Frame(pa) && Plain(LeafEntry(pa))
  {
    EntryDecodes(Frame(pa), 3);
  }

  lemma BigEntryDecodes(pa: nat)
    ensures Present(BigEntry(pa)) && Huge(BigEntry(pa)) && BigFrame(BigEntry(pa)) == BigFrame(pa) && Plain(BigEntry(pa))
  {
    var k := pa % ADDR_LIMIT / BIG;
    var w := k * BIG + 131;
    assert k < ADDR_LIMIT / BIG;
    DivIs(w, 2, k * 0x10_0000 + 65, 1);
    DivIs(w, 4096, k * 512, 131);
    DivIs(w, 128, k * 16384 + 1, 3);
    DivIs(k * 16384 + 1, 2, k * 8192, 1);
    DivIs(w, ADDR_LIMIT, 0, w);
    DivIs(w, BIG, k, 131);
  }

  // ----- Indices ----------------------------------------------------------

  function I4(v: nat): (i: nat) ensures i < 512 { v / 0x80_0000_0000 % 512 }
  function I3(v: nat): (i: nat) ensures i < 512 { v / 0x4000_0000 % 512 }
  function I2(v: nat): (i: nat) ensures i < 512 { v / 0x20_0000 % 512 }
  function I1(v: nat): (i: nat) ensures i < 512 { v / 0x1000 % 512 }

  /** The four indices pick out one page of the 48-bit space, the first three one 2MB region. */
  lemma IndicesAreThePage(v: nat, u: nat)
    requires v < VA_LIMIT && u < VA_LIMIT
    ensures v == I4(v) * 0x80_0000_0000 + I3(v) * 0x4000_0000 + I2(v) * 0x20_0000 + I1(v) * 0x1000 + v % 0x1000
    ensures I4(v) == I4(u) && I3(v) == I3(u) && I2(v) == I2(u) <==> v / BIG == u / BIG
    ensures I4(v) == I4(u) && I3(v) == I3(u) && I2(v) == I2(u) && I1(v) == I1(u) <==> v / PAGE == u / PAGE
  {
    Digits(v);
    Digits(u);
  }

  lemma Digits(v: nat)
    requires v < VA_LIMIT
    ensures v / BIG == I4(v) * 0x40000 + I3(v) * 512 + I2(v)
    ensures v / PAGE == v / BIG * 512 + I1(v)
  {
    var p := v / PAGE;
    DivIs(v, BIG, p / 512, p % 512 * PAGE + v % PAGE);
    var q := v / BIG;
    DivIs(v, 0x4000_0000, q / 512, q % 512 * BIG + v % BIG);
    var r := v / 0x4000_0000;
    DivIs(v, 0x80_0000_0000, r / 512, r % 512 * 0x4000_0000 + v % 0x4000_0000);
  }

  // ----- The hardware walk ------------------------------------------------

  /** What the processor or the IOMMU makes of `v` under the tables at `root`:
      a physical byte address, or nothing. */
  function Walk(m: Mem, root: nat, v: nat): Option<nat> {
    var e4 := Read(m, root, I4(v));
    if !Present(e4) || Huge(e4) then None else
    var e3 := Read(m, Frame(e4), I3(v));
    if !Present(e3) then None else
    if Huge(e3) then Some(e3 % ADDR_LIMIT / 0x4000_0000 * 0x4000_0000 + v % 0x4000_0000) else
    var e2 := Read(m, Frame(e3), I2(v));
    if !Present(e2) then None else
    if Huge(e2) then Some(BigFrame(e2) + v % BIG) else
    var e1 := Read(m, Frame(e2), I1(v));
    if !Present(e1) then None else Some(Frame(e1) + v % PAGE)
  }

  /** The hardware lets a write to `v` through: every entry on the way allows it. */
  predicate CanWrite(m: Mem, root: nat, v: nat) {
    var e4 := Read(m, root, I4(v));
    && Present(e4) && Writable(e4) && !Huge(e4)
    && var e3 := Read(m, Frame(e4), I3(v));
    && Present(e3) && Writable(e3)
    && (Huge(e3) ||
        var e2 := Read(m, Frame(e3), I2(v));
        && Present(e2) && Writable(e2)
        && (Huge(e2) || var e1 := Read(m, Frame(e2), I1(v)); Present(e1) && Writable(e1)))
  }

  /** The hardware lets code in user mode through: every entry on the way allows it. */
  predicate CanUser(m: Mem, root: nat, v: nat) {
    var e4 := Read(m, root, I4(v));
    && Present(e4) && User(e4) && !Huge(e4)
    && var e3 := Read(m, Frame(e4), I3(v));
    && Present(e3) && User(e3)
    && (Huge(e3) ||
        var e2 := Read(m, Frame(e3), I2(v));
        && Present(e2) && User(e2)
        && (Huge(e2) || var e1 := Read(m, Frame(e2), I1(v)); Present(e1) && User(e1)))
  }

  /** The hardware finds a 2MB leaf, not a table, in the page directory for `v`. */
  predicate BigAt(m: Mem, root: nat, v: nat) {
    var e4 := Read(m, root, I4(v));
    && Present(e4) && !Huge(e4)
    && var e3 := Read(m, Frame(e4), I3(v));
    && Present(e3) && !Huge(e3)
    && var e2 := Read(m, Frame(e3), I2(v));
    && Present(e2) && Huge(e2)
  }

  // ----- The builder ------------------------------------------------------

  /** Memory together with the pages the page allocator will hand out, in order.
      The order is arbitrary, so nothing below depends on which page comes next. */
  datatype Tables = Tables(mem: Mem, free: seq<nat>)

  /** One zeroed page, or 0 when there is none left. */
  function Alloc(s: Tables): (Tables, nat) {
    if s.free == [] then (s, 0) else (Tables(s.mem[s.free[0] := ZeroPage()], s.free[1..]), s.free[0])
  }

  /** Puts a table behind slot `i` of table `t` unless there is one already. */
  function Ensure(s: Tables, t: nat, i: nat): Tables
    requires i < 512
  {
    if Present(Read(s.mem, t, i)) then s else
    var (s1, page) := Alloc(s);
    s1.(mem := Write(s1.mem, t, i, TableEntry(page)))
  }

  function Child(s: Tables, t: nat, i: nat): nat
    requires i < 512
  {
    Frame(Read(s.mem, t, i))
  }

  /** A table is there, or there is a page to build it from. */
  predicate CanEnsure(s: Tables, t: nat, i: nat)
    requires i < 512
  {
    Present(Read(s.mem, t, i)) || s.free != []
  }

  /** Walks to the page directory for `v`, building what is missing. */
  function EnsurePd(s: Tables, root: nat, v: nat): (Tables, nat) {
    var s1 := Ensure(s, root, I4(v));
    var pdpt := Child(s1, root, I4(v));
    var s2 := Ensure(s1, pdpt, I3(v));
    (s2, Child(s2, pdpt, I3(v)))
  }

  /** The allocator does not run dry on the way to the page directory. */
  predicate PdFits(s: Tables, root: nat, v: nat) {
    && CanEnsure(s, root, I4(v))
    && var s1 := Ensure(s, root, I4(v));
    CanEnsure(s1, Child(s1, root, I4(v)), I3(v))
  }

  /** ... nor on the way to the page table. */
  predicate PtFits(s: Tables, root: nat, v: nat) {
    && PdFits(s, root, v)
    && var (s2, pd) := EnsurePd(s, root, v);
    CanEnsure(s2, pd, I2(v))
  }

  lemma ThreeIsEnough(s: Tables, root: nat, v: nat)
    ensures |s.free| >= 2 ==> PdFits(s, root, v)
    ensures |s.free| >= 3 ==> PtFits(s, root, v)
  {
  }

  function Map4K(s: Tables, root: nat, v: nat, pa: nat): Tables {
    var (s2, pd) := EnsurePd(s, root, v);
    var s3 := Ensure(s2, pd, I2(v));
    s3.(mem := Write(s3.mem, Child(s3, pd, I2(v)), I1(v), LeafEntry(pa)))
  }

  function Map2M(s: Tables, root: nat, v: nat, pa: nat): Tables {
    var (s2, pd) := EnsurePd(s, root, v);
    s2.(mem := Write(s2.mem, pd, I2(v), BigEntry(pa)))
  }

  // ----- The tree invariant -----------------------------------------------

  /** What a page is used for.  `Table(r, path)` is the table reached from root `r`
      through the slots in `path`. */
  datatype Use = Table(root: nat, path: seq<nat>) | RootTable | ContextTable(bus: nat)

  type Uses = map<nat, Use>

  ghost predicate SlotOk(uses: Uses, u: Use, i: nat, w: nat)
    requires u.Table?
  {
    Present(w) ==>
      if Huge(w) then |u.path| == 2
      else Frame(w) in uses && uses[Frame(w)] == Table(u.root, u.path + [i])
  }

  ghost predicate TreeInv(m: Mem, uses: Uses) {
    && (forall p :: p in uses ==> PageAddr(p) && p in m)
    && (forall p :: p in uses && uses[p].Table? ==> |uses[p].path| <= 3)
    && (forall p :: p in uses && uses[p].Table? && uses[p].path == [] ==> uses[p].root == p)
    && (forall p, i :: p in uses && uses[p].Table? && |uses[p].path| < 3 && 0 <= i < 512 ==>
          SlotOk(uses, uses[p], i, m[p][i]))
    && Shape(m, uses) && Open(m, uses)
  }

  /** A page address with nothing but the present and the writable bit, and the size bit of
      a large page. */
  predicate Plain(w: nat) { w < 0x10_0000_0000_0000 && (w % 4096 == 0x03 || w % 4096 == 0x83) }

  lemma PlainFlags(w: nat)
    requires Plain(w)
    ensures Present(w) && Writable(w) && !User(w)
  {
    var k := w / 4096;
    DivIs(w, 2, k * 2048 + w % 4096 / 2, 1);
    DivIs(w / 2, 2, k * 1024 + w % 4096 / 4, 1);
    DivIs(w, 4, k * 1024 + w % 4096 / 4, 3);
    DivIs(w / 4, 2, k * 512 + w % 4096 / 8, 0);
  }

  /** Every present entry of every table is a plain one. */
  ghost predicate Open(m: Mem, uses: Uses) {
    forall p, i :: p in uses && uses[p].Table? && p in m && 0 <= i < 512 && Present(m[p][i]) ==> Plain(m[p][i])
  }

  /** Table `q` holds, in the slot its path ends with, the address of table `p`. */
  ghost predicate HookedBy(m: Mem, uses: Uses, q: nat, p: nat)
    requires p in uses && uses[p].Table? && uses[p].path != []
  {
    var path := uses[p].path;
    var i := path[|path| - 1];
    && q in uses && q in m && uses[q] == Table(uses[p].root, path[..|path| - 1])
    && i < 512 && Present(m[q][i]) && !Huge(m[q][i]) && Frame(m[q][i]) == p
  }

  ghost predicate IsHooked(m: Mem, uses: Uses, p: nat)
    requires p in uses && uses[p].Table? && uses[p].path != []
  {
    exists q :: HookedBy(m, uses, q, p)
  }

  /** Nothing is built twice: no two pages are the same table, and every inner table
      hangs in its parent's slot. */
  ghost predicate Shape(m: Mem, uses: Uses) {
    && (forall p, q :: p in uses && q in uses && uses[p].Table? && uses[p] == uses[q] ==> p == q)
    && (forall p :: p in uses && uses[p].Table? && uses[p].path != [] ==> IsHooked(m, uses, p))
  }

  /** Entries that were present and led to tables still do: the shape is kept. */
  lemma ShapeKept(m: Mem, m': Mem, uses: Uses)
    requires Shape(m, uses)
    requires forall p, i :: p in uses && uses[p].Table? && |uses[p].path| < 3 && p in m && 0 <= i < 512 && Present(m[p][i])
                            && !Huge(m[p][i]) && Frame(m[p][i]) in uses
                            && uses[Frame(m[p][i])] == Table(uses[p].root, uses[p].path + [i]) ==>
                            p in m' && m'[p][i] == m[p][i]
    requires forall p :: p in uses && uses[p].Table? ==> |uses[p].path| <= 3
    ensures Shape(m', uses)
  {
    hide Present, Huge, Frame;
    forall p | p in uses && uses[p].Table? && uses[p].path != [] ensures IsHooked(m', uses, p) {
      assert IsHooked(m, uses, p);
      var q :| HookedBy(m, uses, q, p);
      var path := uses[p].path;
      assert path == path[..|path| - 1] + [path[|path| - 1]];
      assert HookedBy(m', uses, q, p);
    }
  }

  ghost predicate FreeOk(free: seq<nat>, uses: Uses) {
    && (forall k :: 0 <= k < |free| ==> PageAddr(free[k]) && free[k] !in uses)
    && (forall j, k :: 0 <= j < k < |free| ==> free[j] != free[k])
  }

  ghost predicate IsRoot(uses: Uses, r: nat) { r in uses && uses[r] == Table(r, []) }

  ghost predicate Inv(s: Tables, uses: Uses) { TreeInv(s.mem, uses) && FreeOk(s.free, uses) }

  /** Every root translates every address as before, with pages of the same size. */
  ghost predicate SameWalks(m: Mem, m': Mem, uses: Uses) {
    forall r, v: nat :: IsRoot(uses, r) ==> Walk(m', r, v) == Walk(m, r, v) && BigAt(m', r, v) == BigAt(m, r, v)
  }

  /** Pages in use for something else are left alone. */
  ghost predicate SameOthers(m: Mem, m': Mem, uses: Uses) {
    forall p :: p in uses && !uses[p].Table? ==> p in m && p in m' && m'[p] == m[p]
  }

  /** The invariant is what it is called: two different slots of live tables never
      lead to the same table page, and a slot leads to a table of its own root. */
  lemma TableHasOneParent(m: Mem, uses: Uses, p: nat, i: nat, q: nat, j: nat)
    requires TreeInv(m, uses) && i < 512 && j < 512
    requires p in uses && uses[p].Table? && |uses[p].path| < 3
    requires q in uses && uses[q].Table? && |uses[q].path| < 3
    requires Present(m[p][i]) && !Huge(m[p][i]) && Present(m[q][j]) && !Huge(m[q][j])
    requires Frame(m[p][i]) == Frame(m[q][j])
    ensures p == q && i == j
    ensures Frame(m[p][i]) in uses && uses[Frame(m[p][i])] == Table(uses[p].root, uses[p].path + [i])
  {
    assert SlotOk(uses, uses[p], i, m[p][i]) && SlotOk(uses, uses[q], j, m[q][j]);
    var a, b := uses[p].path + [i], uses[q].path + [j];
    assert a[|a| - 1] == i && b[|b| - 1] == j;
    assert uses[p].path == a[..|a| - 1] && uses[q].path == b[..|b| - 1];
  }

  // ----- Each building step keeps the tree and every translation -----------

  ghost function UsesAfterAlloc(s: Tables, uses: Uses, u: Use): Uses
    requires s.free != []
  {
    uses[s.free[0] := u]
  }

  lemma AllocShape(m: Mem, uses: Uses, pg: nat, u: Use)
    requires Shape(m, uses) && pg !in uses && (u.Table? ==> u == Table(pg, []))
    requires forall p :: p in uses && uses[p].Table? && uses[p].path == [] ==> uses[p].root == p
    ensures Shape(m[pg := ZeroPage()], uses[pg := u])
  {
    hide IsHooked, ZeroPage;
    var m', uses' := m[pg := ZeroPage()], uses[pg := u];
    forall p | p in uses' && uses'[p].Table? && uses'[p].path != [] ensures IsHooked(m', uses', p) {
      AllocHook(m, uses, pg, u, p);
    }
  }

  lemma AllocHook(m: Mem, uses: Uses, pg: nat, u: Use, p: nat)
    requires pg !in uses && p in uses && uses[p].Table? && uses[p].path != [] && IsHooked(m, uses, p)
    ensures IsHooked(m[pg := ZeroPage()], uses[pg := u], p)
  {
    hide Present, Huge, Frame, ZeroPage;
    var q :| HookedBy(m, uses, q, p);
    assert HookedBy(m[pg := ZeroPage()], uses[pg := u], q, p);
  }

  lemma AllocOpen(m: Mem, uses: Uses, pg: nat, u: Use)
    requires Open(m, uses) && pg !in uses
    ensures Open(m[pg := ZeroPage()], uses[pg := u])
  {
    hide Plain;
  }

  /** Words that were there stay, and new ones are plain. */
  lemma OpenStays(m: Mem, m': Mem, uses: Uses, uses': Uses)
    requires Open(m, uses)
    requires forall p, i | p in uses' && uses'[p].Table? && p in m' && 0 <= i < 512 ::
               || !Present(m'[p][i]) || Plain(m'[p][i])
               || (p in uses && uses[p].Table? && p in m && m[p][i] == m'[p][i])
    ensures Open(m', uses')
  {
    hide Present, Plain;
  }

  /** Handing out a page for a use that no slot leads to yet. */
  lemma AllocKeeps(s: Tables, uses: Uses, u: Use)
    requires Inv(s, uses) && s.free != []
    requires u.Table? ==> u == Table(s.free[0], [])
    ensures Inv(Alloc(s).0, UsesAfterAlloc(s, uses, u))
    ensures SameWalks(s.mem, Alloc(s).0.mem, uses) && SameOthers(s.mem, Alloc(s).0.mem, uses)
    ensures forall v: nat :: Walk(Alloc(s).0.mem, s.free[0], v) == None && !BigAt(Alloc(s).0.mem, s.free[0], v)
  {
    hide Shape, Open;
    var s1, pg := Alloc(s).0, s.free[0];
    var uses1 := UsesAfterAlloc(s, uses, u);
    forall p, i | p in uses1 && uses1[p].Table? && |uses1[p].path| < 3 && 0 <= i < 512
      ensures SlotOk(uses1, uses1[p], i, s1.mem[p][i])
    {
      if p != pg { assert SlotOk(uses, uses[p], i, s.mem[p][i]); }
    }
    AllocShape(s.mem, uses, pg, u);
    AllocOpen(s.mem, uses, pg, u);
    FrameKeepsWalks(s.mem, s1.mem, uses);
  }

  /** Which tables a walk visits. */
  lemma Visits(m: Mem, uses: Uses, r: nat, v: nat)
    requires TreeInv(m, uses) && IsRoot(uses, r)
    ensures var e4 := m[r][I4(v)];
            Present(e4) ==>
              && !Huge(e4) && Frame(e4) in uses && uses[Frame(e4)] == Table(r, [I4(v)])
              && var e3 := m[Frame(e4)][I3(v)];
              Present(e3) ==>
                && !Huge(e3) && Frame(e3) in uses && uses[Frame(e3)] == Table(r, [I4(v), I3(v)])
                && var e2 := m[Frame(e3)][I2(v)];
                Present(e2) && !Huge(e2) ==>
                  Frame(e2) in uses && uses[Frame(e2)] == Table(r, [I4(v), I3(v), I2(v)])
  {
    hide Shape, Open;
    var e4 := m[r][I4(v)];
    assert SlotOk(uses, uses[r], I4(v), e4);
    if Present(e4) {
      assert [] + [I4(v)] == [I4(v)];
      var e3 := m[Frame(e4)][I3(v)];
      assert SlotOk(uses, uses[Frame(e4)], I3(v), e3);
      if Present(e3) {
        assert [I4(v)] + [I3(v)] == [I4(v), I3(v)];
        assert SlotOk(uses, uses[Frame(e3)], I2(v), m[Frame(e3)][I2(v)]);
        assert [I4(v), I3(v)] + [I2(v)] == [I4(v), I3(v), I2(v)];
      }
    }
  }

  /** Whatever translates can be written, and nothing is open to user mode. */
  lemma TranslatedIsWritable(m: Mem, uses: Uses, r: nat, v: nat)
    requires TreeInv(m, uses) && IsRoot(uses, r)
    ensures Walk(m, r, v).Some? ==> CanWrite(m, r, v)
    ensures !CanUser(m, r, v)
  {
    hide Present, Huge, Frame, BigFrame, Writable, User, Plain, I1, I2, I3, I4, Shape, SlotOk;
    Visits(m, uses, r, v);
    forall p, i | p in uses && uses[p].Table? && p in m && 0 <= i < 512 && Present(m[p][i])
      ensures Writable(m[p][i]) && !User(m[p][i])
    {
      PlainFlags(m[p][i]);
    }
  }

  /** Changing pages that are no table of any tree changes no translation. */
  lemma FrameKeepsWalks(m: Mem, m': Mem, uses: Uses)
    requires TreeInv(m, uses)
    requires forall p :: p in uses && uses[p].Table? ==> p in m' && m'[p] == m[p]
    ensures SameWalks(m, m', uses)
  {
    hide Present, Huge, Frame, BigFrame, I1, I2, I3, I4, Shape, Open;
    forall r, v: nat | IsRoot(uses, r)
      ensures Walk(m', r, v) == Walk(m, r, v) && BigAt(m', r, v) == BigAt(m, r, v)
    {
      Visits(m, uses, r, v);
    }
  }

  /** Writing to a page that is no table of any tree. */
  lemma OtherWrite(m: Mem, uses: Uses, p: nat, i: nat, w: nat)
    requires TreeInv(m, uses) && i < 512 && p in uses && !uses[p].Table?
    ensures TreeInv(Write(m, p, i, w), uses) && SameWalks(m, Write(m, p, i, w), uses)
  {
    hide Walk, BigAt, Shape, Open;
    var m' := Write(m, p, i, w);
    forall q, j | q in uses && uses[q].Table? && |uses[q].path| < 3 && 0 <= j < 512
      ensures SlotOk(uses, uses[q], j, m'[q][j])
    {
      assert SlotOk(uses, uses[q], j, m[q][j]);
    }
    ShapeKept(m, m', uses);
    OpenStays(m, m', uses, uses);
    FrameKeepsWalks(m, m', uses);
  }

  ghost predicate MayEnsure(s: Tables, uses: Uses, t: nat, i: nat) {
    && i < 512
    && t in uses && uses[t].Table? && |uses[t].path| < 3
    && (Present(Read(s.mem, t, i)) ==> !Huge(Read(s.mem, t, i)))
    && (!Present(Read(s.mem, t, i)) ==> s.free != [])
  }

  ghost function UsesAfterEnsure(s: Tables, uses: Uses, t: nat, i: nat): Uses
    requires MayEnsure(s, uses, t, i)
  {
    if Present(Read(s.mem, t, i)) then uses
    else UsesAfterAlloc(s, uses, Table(uses[t].root, uses[t].path + [i]))
  }

  lemma EnsureKeeps(s: Tables, uses: Uses, t: nat, i: nat)
    requires Inv(s, uses) && MayEnsure(s, uses, t, i)
    ensures var s' := Ensure(s, t, i);
            var uses' := UsesAfterEnsure(s, uses, t, i);
            && Inv(s', uses') && SameWalks(s.mem, s'.mem, uses)
            && Present(Read(s'.mem, t, i)) && !Huge(Read(s'.mem, t, i))
            && Child(s', t, i) in uses'
            && uses'[Child(s', t, i)] == Table(uses[t].root, uses[t].path + [i])
            && SameOthers(s.mem, s'.mem, uses)
            && |s.free| - 1 <= |s'.free| <= |s.free|
            && (forall p :: p in uses ==> p in uses' && uses'[p] == uses[p])
            && (forall p, j :: p in uses && 0 <= j < 512 && (p != t || j != i) ==> s'.mem[p][j] == s.mem[p][j])
  {
    hide Shape, Open;
    if Present(Read(s.mem, t, i)) {
      assert SlotOk(uses, uses[t], i, s.mem[t][i]);
    } else {
      var pg := s.free[0];
      var s' := Ensure(s, t, i);
      var uses' := UsesAfterEnsure(s, uses, t, i);
      TableEntryDecodes(pg);
      forall p, j | p in uses' && uses'[p].Table? && |uses'[p].path| < 3 && 0 <= j < 512
        ensures SlotOk(uses', uses'[p], j, s'.mem[p][j])
      {
        if p != pg && (p != t || j != i) { assert SlotOk(uses, uses[p], j, s.mem[p][j]); }
      }
      EnsureShape(s.mem, s'.mem, uses, t, i, pg);
      OpenStays(s.mem, s'.mem, uses, uses');
      EnsureKeepsWalks(s, uses, t, i);
    }
  }

  lemma HookedIs(m: Mem, uses: Uses, q: nat, p: nat)
    requires p in uses && uses[p].Table? && uses[p].path != [] && HookedBy(m, uses, q, p)
    ensures IsHooked(m, uses, p)
  {
  }

  /** An empty slot had no table hanging from it before. */
  lemma SlotWasFree(m: Mem, uses: Uses, t: nat, i: nat, p: nat)
    requires Shape(m, uses) && t in uses && uses[t].Table? && i < 512 && t in m && !Present(m[t][i])
    requires p in uses
    ensures uses[p] != Table(uses[t].root, uses[t].path + [i])
  {
    hide Present, Huge, Frame;
    var path := uses[t].path + [i];
    assert path[..|path| - 1] == uses[t].path && path[|path| - 1] == i;
    if uses[p].Table? && uses[p].path != [] {
      assert IsHooked(m, uses, p);
      var q :| HookedBy(m, uses, q, p);
      assert uses[q] == uses[t] ==> q == t;
    }
  }

  lemma HookStays(m: Mem, m': Mem, uses: Uses, uses': Uses, p: nat)
    requires p in uses && uses[p].Table? && uses[p].path != [] && IsHooked(m, uses, p)
    requires forall q :: q in uses ==> q in uses' && uses'[q] == uses[q]
    requires forall q, j :: q in uses && q in m && 0 <= j < 512 && Present(m[q][j]) ==> q in m' && m'[q][j] == m[q][j]
    ensures IsHooked(m', uses', p)
  {
    hide Present, Huge, Frame;
    var q :| HookedBy(m, uses, q, p);
    assert HookedBy(m', uses', q, p);
  }

  lemma EnsureShape(m: Mem, m': Mem, uses: Uses, t: nat, i: nat, pg: nat)
    requires Shape(m, uses) && t in uses && uses[t].Table? && i < 512 && t in m && !Present(m[t][i]) && pg !in uses
    requires forall p, j :: p in uses && p in m && 0 <= j < 512 && (p != t || j != i) ==> p in m' && m'[p][j] == m[p][j]
    requires t in m' && Present(m'[t][i]) && !Huge(m'[t][i]) && Frame(m'[t][i]) == pg
    ensures Shape(m', uses[pg := Table(uses[t].root, uses[t].path + [i])])
  {
    hide Present, Huge, Frame;
    var path := uses[t].path + [i];
    var uses' := uses[pg := Table(uses[t].root, path)];
    forall p | p in uses ensures uses[p] != Table(uses[t].root, path) { SlotWasFree(m, uses, t, i, p); }
    assert path[..|path| - 1] == uses[t].path;
    assert HookedBy(m', uses', t, pg);
    forall p | p in uses' && uses'[p].Table? && uses'[p].path != [] ensures IsHooked(m', uses', p) {
      hide HookedBy, IsHooked;
      if p == pg { HookedIs(m', uses', t, pg); } else { HookStays(m, m', uses, uses', p); }
    }
  }

  lemma EnsureKeepsWalks(s: Tables, uses: Uses, t: nat, i: nat)
    requires Inv(s, uses) && MayEnsure(s, uses, t, i) && !Present(Read(s.mem, t, i))
    ensures SameWalks(s.mem, Ensure(s, t, i).mem, uses)
  {
    hide Shape, Open;
    var m, m', pg := s.mem, Ensure(s, t, i).mem, s.free[0];
    TableEntryDecodes(pg);
    forall r, v: nat | IsRoot(uses, r)
      ensures Walk(m', r, v) == Walk(m, r, v) && BigAt(m', r, v) == BigAt(m, r, v)
    {
      NewTableKeepsWalk(m, m', uses, t, i, pg, r, v);
    }
  }

  lemma NewTableKeepsWalk(m: Mem, m': Mem, uses: Uses, t: nat, i: nat, pg: nat, r: nat, v: nat)
    requires TreeInv(m, uses) && IsRoot(uses, r) && pg in m' && i < 512
    requires forall p, j :: p in uses && 0 <= j < 512 && (p != t || j != i) ==> p in m' && m'[p][j] == m[p][j]
    requires forall j :: 0 <= j < 512 ==> m'[pg][j] == 0
    requires t in uses && uses[t].Table? && |uses[t].path| < 3 && !Present(m[t][i])
    requires t in m' && Present(m'[t][i]) && !Huge(m'[t][i]) && Frame(m'[t][i]) == pg
    ensures Walk(m', r, v) == Walk(m, r, v) && BigAt(m', r, v) == BigAt(m, r, v)
  {
    hide Huge, Frame, BigFrame, I1, I2, I3, I4, Shape, Open;
    Visits(m, uses, r, v);
  }

  // ----- What building takes from the pool --------------------------------

  /** The paths of the tables under a root, the empty path of the root itself included. */
  ghost function Paths(uses: Uses, root: nat): set<seq<nat>> {
    set p | p in uses && uses[p].Table? && uses[p].root == root :: uses[p].path
  }

  /** From `s` to `s'` the tables under `root` grew by those of `new_`: as many fresh pages
      are gone as there are paths more, and every page put to use was a fresh one. */
  ghost predicate Takes(s: Tables, uses: Uses, s': Tables, uses': Uses, root: nat, new_: set<seq<nat>>) {
    && Paths(uses', root) == Paths(uses, root) + new_
    && |s'.free| + |Paths(uses', root)| == |s.free| + |Paths(uses, root)|
    && (forall p :: p in uses' ==> p in uses || p in s.free)
    && (forall p :: p in s'.free ==> p in s.free)
    && Untouched(s, uses, s'.mem)
  }

  ghost predicate SamePage(m: Mem, m': Mem, p: nat) { (p in m <==> p in m') && (p in m ==> m'[p] == m[p]) }

  /** No page is written that is neither in use nor fresh. */
  ghost predicate Untouched(s: Tables, uses: Uses, m: Mem) {
    forall p :: p !in uses && p !in s.free ==> SamePage(s.mem, m, p)
  }

  lemma TakesTrans(s: Tables, uses: Uses, s1: Tables, uses1: Uses, s2: Tables, uses2: Uses, root: nat,
                   a: set<seq<nat>>, b: set<seq<nat>>)
    requires Takes(s, uses, s1, uses1, root, a) && Takes(s1, uses1, s2, uses2, root, b)
    ensures Takes(s, uses, s2, uses2, root, a + b)
  {
    hide Paths;
    assert Paths(uses, root) + a + b == Paths(uses, root) + (a + b);
    forall p | p !in uses && p !in s.free ensures SamePage(s.mem, s2.mem, p) {
      assert SamePage(s.mem, s1.mem, p) && SamePage(s1.mem, s2.mem, p);
    }
  }

  lemma TakesNone(t: Tables, uses: Uses, root: nat)
    ensures Takes(t, uses, t, uses, root, {})
  {
  }

  /** The fresh pages cover the tables of `a` and `b` together exactly if, once those of `a`
      are built, they cover those of `b`. */
  lemma FitsNext(t: Tables, uses: Uses, t1: Tables, uses1: Uses, root: nat, a: set<seq<nat>>, b: set<seq<nat>>)
    requires Takes(t, uses, t1, uses1, root, a)
    ensures var ps, ps1 := Paths(uses, root), Paths(uses1, root);
            |t1.free| + |ps1| >= |ps1 + b| <==> |t.free| + |ps| >= |ps + (a + b)|
  {
    hide Paths;
    assert Paths(uses, root) + a + b == Paths(uses, root) + (a + b);
  }

  /** Writing to a page in use takes nothing more. */
  lemma TakesWrite(s: Tables, uses: Uses, s1: Tables, uses': Uses, root: nat, new_: set<seq<nat>>, p: nat, i: nat, w: nat)
    requires Takes(s, uses, s1, uses', root, new_) && p in uses' && i < 512
    ensures Takes(s, uses, s1.(mem := Write(s1.mem, p, i, w)), uses', root, new_)
  {
    hide Paths;
    var m := Write(s1.mem, p, i, w);
    forall q | q !in uses && q !in s.free ensures SamePage(s.mem, m, q) {
      assert SamePage(s.mem, s1.mem, q) && SamePage(s1.mem, m, q);
    }
  }

  /** Every table belongs to a root that is in use. */
  lemma {:induction false} RootIsUsed(m: Mem, uses: Uses, p: nat)
    requires TreeInv(m, uses) && p in uses && uses[p].Table?
    ensures IsRoot(uses, uses[p].root)
    decreases |uses[p].path|
  {
    hide Present, Huge, Frame, SlotOk;
    if uses[p].path != [] {
      assert IsHooked(m, uses, p);
      var q :| HookedBy(m, uses, q, p);
      RootIsUsed(m, uses, q);
    }
  }

  lemma NewRootHasNoTables(s: Tables, uses: Uses)
    requires Inv(s, uses) && s.free != []
    ensures var root := s.free[0]; Paths(UsesAfterAlloc(s, uses, Table(root, [])), root) == {[]}
  {
    hide SlotOk, Shape, Open;
    var root := s.free[0];
    var uses' := UsesAfterAlloc(s, uses, Table(root, []));
    forall p | p in uses && uses[p].Table? ensures uses[p].root != root { RootIsUsed(s.mem, uses, p); }
    assert uses'[root] == Table(root, []);
  }

  /** Whether a slot of a table is taken is whether the path through it is. */
  lemma SlotIsPath(s: Tables, uses: Uses, t: nat, i: nat)
    requires Inv(s, uses) && i < 512 && t in uses && uses[t].Table? && |uses[t].path| < 3
    requires Present(Read(s.mem, t, i)) ==> !Huge(Read(s.mem, t, i))
    ensures Present(Read(s.mem, t, i)) <==> uses[t].path + [i] in Paths(uses, uses[t].root)
  {
    hide Shape, Open, Huge, Frame;
    if Present(Read(s.mem, t, i)) {
      assert SlotOk(uses, uses[t], i, s.mem[t][i]);
    } else {
      forall p | p in uses ensures uses[p] != Table(uses[t].root, uses[t].path + [i]) {
        SlotWasFree(s.mem, uses, t, i, p);
      }
    }
  }

  lemma PathsAfterEnsure(s: Tables, uses: Uses, t: nat, i: nat)
    requires Inv(s, uses) && MayEnsure(s, uses, t, i)
    ensures var r := uses[t].root;
            Paths(UsesAfterEnsure(s, uses, t, i), r) == Paths(uses, r) + {uses[t].path + [i]}
  {
    hide Shape, Open, Huge, Frame, SlotOk, Present;
    SlotIsPath(s, uses, t, i);
    var r, path, uses' := uses[t].root, uses[t].path + [i], UsesAfterEnsure(s, uses, t, i);
    if !Present(Read(s.mem, t, i)) {
      var pg := s.free[0];
      assert pg !in uses && uses'[pg] == Table(r, path);
      forall q | q in Paths(uses, r) ensures q in Paths(uses', r) {
        var p :| p in uses && uses[p].Table? && uses[p].root == r && uses[p].path == q;
        assert uses'[p] == uses[p];
      }
    }
  }

  /** `Ensure` takes a page exactly when the path is a new one. */
  lemma EnsureTakes(s: Tables, uses: Uses, t: nat, i: nat)
    requires Inv(s, uses) && MayEnsure(s, uses, t, i)
    ensures Takes(s, uses, Ensure(s, t, i), UsesAfterEnsure(s, uses, t, i), uses[t].root, {uses[t].path + [i]})
  {
    hide Shape, Open, Huge, Frame, SlotOk, Present, Paths;
    SlotIsPath(s, uses, t, i);
    PathsAfterEnsure(s, uses, t, i);
    var ps, q := Paths(uses, uses[t].root), uses[t].path + [i];
    if q in ps { assert ps + {q} == ps; }
  }

  lemma CanEnsureIff(s: Tables, uses: Uses, t: nat, i: nat)
    requires Inv(s, uses) && i < 512 && t in uses && uses[t].Table? && |uses[t].path| < 3
    requires Present(Read(s.mem, t, i)) ==> !Huge(Read(s.mem, t, i))
    ensures var ps := Paths(uses, uses[t].root);
            CanEnsure(s, t, i) <==> |s.free| + |ps| >= |ps + {uses[t].path + [i]}|
  {
    hide Shape, Open, Huge, Frame, SlotOk, Present, Paths, TreeInv, FreeOk;
    SlotIsPath(s, uses, t, i);
    var ps, q := Paths(uses, uses[t].root), uses[t].path + [i];
    if q in ps { assert ps + {q} == ps; }
  }

  /** The tables a walk for `v` visits below the root, as far as the page directory ... */
  function PdPaths(v: nat): set<seq<nat>> { {[I4(v)], [I4(v), I3(v)]} }

  /** ... and as far as the page table. */
  function PtPaths(v: nat): set<seq<nat>> { PdPaths(v) + {[I4(v), I3(v), I2(v)]} }

  /** The tables that mapping 4K pages at `addrs` needs below the root. */
  function TablePaths(addrs: seq<nat>): set<seq<nat>> {
    if addrs == [] then {} else TablePaths(addrs[..|addrs| - 1]) + PtPaths(addrs[|addrs| - 1])
  }

  lemma {:induction false} ThreeEach(addrs: seq<nat>)
    ensures |TablePaths(addrs)| <= 3 * |addrs| && [] !in TablePaths(addrs)
  {
    if addrs != [] {
      hide I2, I3, I4;
      var a, b := TablePaths(addrs[..|addrs| - 1]), PtPaths(addrs[|addrs| - 1]);
      ThreeEach(addrs[..|addrs| - 1]);
      assert a + b == a + (b - a);
      Subset(b - a, b);
    }
  }

  /** The way to the page directory can be built exactly if there is a page for each path
      that is not there yet. */
  lemma PdFitsIff(s: Tables, uses: Uses, root: nat, v: nat)
    requires Inv(s, uses) && IsRoot(uses, root)
    ensures var ps := Paths(uses, root); PdFits(s, root, v) <==> |s.free| + |ps| >= |ps + PdPaths(v)|
  {
    hide Shape, Open, Huge, Frame, Present, Paths, Ensure, CanEnsure, Takes, SameWalks, SameOthers;
    var ps := Paths(uses, root);
    assert SlotOk(uses, uses[root], I4(v), s.mem[root][I4(v)]);
    assert [] + [I4(v)] == [I4(v)];
    CanEnsureIff(s, uses, root, I4(v));
    var one, two := ps + {[I4(v)]}, ps + PdPaths(v);
    assert one + {[I4(v), I3(v)]} == two;
    if CanEnsure(s, root, I4(v)) {
      assert MayEnsure(s, uses, root, I4(v)) by { CanMeansMay(s, uses, root, I4(v)); }
      EnsureKeeps(s, uses, root, I4(v));
      EnsureTakes(s, uses, root, I4(v));
      var s1, uses1 := Ensure(s, root, I4(v)), UsesAfterEnsure(s, uses, root, I4(v));
      var pdpt := Child(s1, root, I4(v));
      assert SlotOk(uses1, uses1[pdpt], I3(v), s1.mem[pdpt][I3(v)]);
      assert [I4(v)] + [I3(v)] == [I4(v), I3(v)];
      CanEnsureIff(s1, uses1, pdpt, I3(v));
      TakesMeans(s, uses, s1, uses1, root, {[I4(v)]});
    } else {
      Subset(one, two);
    }
  }

  lemma TakesMeans(s: Tables, uses: Uses, s': Tables, uses': Uses, root: nat, new_: set<seq<nat>>)
    requires Takes(s, uses, s', uses', root, new_)
    ensures Paths(uses', root) == Paths(uses, root) + new_
    ensures |s'.free| + |Paths(uses', root)| == |s.free| + |Paths(uses, root)|
  {
  }

  lemma CanMeansMay(s: Tables, uses: Uses, t: nat, i: nat)
    requires i < 512 && t in uses && uses[t].Table? && |uses[t].path| < 3 && CanEnsure(s, t, i)
    requires Present(Read(s.mem, t, i)) ==> !Huge(Read(s.mem, t, i))
    ensures MayEnsure(s, uses, t, i)
  {
  }

  lemma Subset<T>(a: set<T>, b: set<T>)
    requires a <= b
    ensures |a| <= |b|
  {
    assert b == a + (b - a);
  }

  // ----- Mapping one page -------------------------------------------------

  /** `uses'` is `uses` with some pages added as inner tables of `root`. */
  ghost predicate Extends(uses: Uses, uses': Uses, root: nat) {
    && (forall p :: p in uses ==> p in uses' && uses'[p] == uses[p])
    && (forall p :: p in uses' && p !in uses ==> uses'[p].Table? && uses'[p].root == root && uses'[p].path != [])
  }

  /** `pd` is the page directory the hardware reaches for `v`. */
  ghost predicate PdFor(m: Mem, root: nat, v: nat, pd: nat) {
    var e4 := Read(m, root, I4(v));
    && Present(e4) && !Huge(e4)
    && var e3 := Read(m, Frame(e4), I3(v));
    && Present(e3) && !Huge(e3) && Frame(e3) == pd
  }

  /** What building tables under `root` keeps, and what it takes. */
  ghost predicate Kept(s: Tables, uses: Uses, s': Tables, uses': Uses, root: nat, new_: set<seq<nat>>) {
    && Inv(s', uses') && Extends(uses, uses', root) && SameWalks(s.mem, s'.mem, uses)
    && SameOthers(s.mem, s'.mem, uses) && Takes(s, uses, s', uses', root, new_)
  }

  lemma KeptTrans(s: Tables, uses: Uses, s1: Tables, uses1: Uses, s2: Tables, uses2: Uses, root: nat,
                  a: set<seq<nat>>, b: set<seq<nat>>)
    requires Kept(s, uses, s1, uses1, root, a) && Kept(s1, uses1, s2, uses2, root, b)
    ensures Kept(s, uses, s2, uses2, root, a + b)
  {
    hide Inv, SameWalks, Takes;
    TakesTrans(s, uses, s1, uses1, s2, uses2, root, a, b);
    SameWalksTrans(s.mem, s1.mem, s2.mem, uses, uses1);
  }

  lemma EnsureKept(s: Tables, uses: Uses, t: nat, i: nat)
    requires Inv(s, uses) && MayEnsure(s, uses, t, i)
    ensures Kept(s, uses, Ensure(s, t, i), UsesAfterEnsure(s, uses, t, i), uses[t].root, {uses[t].path + [i]})
  {
    hide Inv, Ensure, Present, Huge, Frame, SameWalks, Takes;
    EnsureKeeps(s, uses, t, i);
    EnsureTakes(s, uses, t, i);
  }

  lemma UsedIsThere(s: Tables, uses: Uses, p: nat)
    requires Inv(s, uses) && p in uses
    ensures p in s.mem
  {
    hide Shape, Open, SlotOk;
  }

  lemma RootSlot(s: Tables, uses: Uses, root: nat, v: nat)
    requires Inv(s, uses) && IsRoot(uses, root) && CanEnsure(s, root, I4(v))
    ensures MayEnsure(s, uses, root, I4(v))
  {
    hide Shape, Open, Huge, Frame, Present;
    assert SlotOk(uses, uses[root], I4(v), s.mem[root][I4(v)]);
  }

  lemma InnerSlot(s: Tables, uses: Uses, root: nat, v: nat, pdpt: nat)
    requires Inv(s, uses) && pdpt in uses && uses[pdpt] == Table(root, [I4(v)]) && CanEnsure(s, pdpt, I3(v))
    ensures MayEnsure(s, uses, pdpt, I3(v))
  {
    hide Shape, Open, Huge, Frame, Present;
    assert SlotOk(uses, uses[pdpt], I3(v), s.mem[pdpt][I3(v)]);
  }

  lemma EnsurePdKeeps(s: Tables, uses: Uses, root: nat, v: nat) returns (uses': Uses)
    requires Inv(s, uses) && IsRoot(uses, root) && PdFits(s, root, v)
    ensures var (s', pd) := EnsurePd(s, root, v);
            && Kept(s, uses, s', uses', root, PdPaths(v))
            && (forall p :: p in uses' && p !in uses ==> |uses'[p].path| < 3)
            && pd in uses' && uses'[pd] == Table(root, [I4(v), I3(v)]) && PdFor(s'.mem, root, v, pd)
  {
    hide Inv, Ensure, CanEnsure, Present, Huge, Frame, SameWalks, Takes, Kept;
    RootSlot(s, uses, root, v);
    EnsureKeeps(s, uses, root, I4(v));
    EnsureKept(s, uses, root, I4(v));
    var s1, uses1 := Ensure(s, root, I4(v)), UsesAfterEnsure(s, uses, root, I4(v));
    var pdpt := Child(s1, root, I4(v));
    assert [] + [I4(v)] == [I4(v)] && [I4(v)] + [I3(v)] == [I4(v), I3(v)];
    InnerSlot(s1, uses1, root, v, pdpt);
    EnsureKeeps(s1, uses1, pdpt, I3(v));
    EnsureKept(s1, uses1, pdpt, I3(v));
    uses' := UsesAfterEnsure(s1, uses1, pdpt, I3(v));
    assert root != pdpt;
    UsedIsThere(s1, uses1, root);
    UsedIsThere(Ensure(s1, pdpt, I3(v)), uses', root);
    assert {[I4(v)]} + {[I4(v), I3(v)]} == PdPaths(v);
    KeptTrans(s, uses, s1, uses1, Ensure(s1, pdpt, I3(v)), uses', root, {[I4(v)]}, {[I4(v), I3(v)]});
  }

  /** Writing one slot of the last table on a path changes only the translations that use that slot. */
  lemma LeafWrite(m: Mem, uses: Uses, root: nat, v: nat, pd: nat, pt: nat, w: nat)
    requires TreeInv(m, uses) && IsRoot(uses, root) && PdFor(m, root, v, pd)
    requires pd in uses && uses[pd] == Table(root, [I4(v), I3(v)])
    requires pt in uses && uses[pt] == Table(root, [I4(v), I3(v), I2(v)])
    requires var e2 := Read(m, pd, I2(v)); Present(e2) && !Huge(e2) && Frame(e2) == pt
    requires Present(w) && Plain(w)
    ensures var m' := Write(m, pt, I1(v), w);
            && TreeInv(m', uses)
            && forall r, u: nat :: IsRoot(uses, r) ==>
                 && BigAt(m', r, u) == BigAt(m, r, u)
                 && Walk(m', r, u) ==
                    if r == root && (I4(u), I3(u), I2(u), I1(u)) == (I4(v), I3(v), I2(v), I1(v))
                    then Some(Frame(w) + u % PAGE) else Walk(m, r, u)
  {
    hide Shape, Open;
    var m' := Write(m, pt, I1(v), w);
    assert forall p :: p in uses && p != pt ==> m'[p] == m[p];
    forall p, i | p in uses && uses[p].Table? && |uses[p].path| < 3 && 0 <= i < 512
      ensures SlotOk(uses, uses[p], i, m'[p][i])
    {
      assert SlotOk(uses, uses[p], i, m[p][i]);
    }
    assert |uses[pt].path| == 3;
    ShapeKept(m, m', uses);
    OpenStays(m, m', uses, uses);
    forall r, u: nat | IsRoot(uses, r)
      ensures BigAt(m', r, u) == BigAt(m, r, u)
      ensures Walk(m', r, u) ==
              if r == root && (I4(u), I3(u), I2(u), I1(u)) == (I4(v), I3(v), I2(v), I1(v))
              then Some(Frame(w) + u % PAGE) else Walk(m, r, u)
    {
      LeafWriteWalk(m, m', uses, root, v, pd, pt, w, r, u);
    }
  }

  lemma LeafWriteWalk(m: Mem, m': Mem, uses: Uses, root: nat, v: nat, pd: nat, pt: nat, w: nat, r: nat, u: nat)
    requires TreeInv(m, uses) && IsRoot(uses, r) && PdFor(m, root, v, pd)
    requires pd in uses && uses[pd] == Table(root, [I4(v), I3(v)])
    requires pt in uses && uses[pt] == Table(root, [I4(v), I3(v), I2(v)])
    requires var e2 := Read(m, pd, I2(v)); Present(e2) && !Huge(e2) && Frame(e2) == pt
    requires forall p :: p in uses && p != pt ==> p in m' && m'[p] == m[p]
    requires pt in m' && m'[pt] == m[pt][I1(v) := w] && Present(w)
    ensures BigAt(m', r, u) == BigAt(m, r, u)
    ensures Walk(m', r, u) ==
            if r == root && (I4(u), I3(u), I2(u), I1(u)) == (I4(v), I3(v), I2(v), I1(v))
            then Some(Frame(w) + u % PAGE) else Walk(m, r, u)
  {
    hide Present, Huge, Frame, BigFrame, I1, I2, I3, I4, Shape, Open;
    Visits(m, uses, r, u);
    var path := uses[pt].path;
    assert path[0] == I4(v) && path[1] == I3(v) && path[2] == I2(v);
    assert |uses[pt].path| == 3;
  }

  ghost predicate SameSizes(m: Mem, m': Mem, uses: Uses) {
    forall r, u: nat :: IsRoot(uses, r) ==> BigAt(m', r, u) == BigAt(m, r, u)
  }

  /** `m'` translates the 4K page of `v` under `root` to frame `pa`, all else as `m` does. */
  ghost predicate Maps4K(m: Mem, m': Mem, uses: Uses, root: nat, v: nat, pa: nat) {
    forall r, u: nat :: IsRoot(uses, r) && u < VA_LIMIT ==>
      Walk(m', r, u) == if r == root && u / PAGE == v / PAGE then Some(pa + u % PAGE) else Walk(m, r, u)
  }

  /** The same for the 2MB page of `v`. */
  ghost predicate Maps2M(m: Mem, m': Mem, uses: Uses, root: nat, v: nat, pa: nat) {
    forall r, u: nat :: IsRoot(uses, r) && u < VA_LIMIT ==>
      Walk(m', r, u) == if r == root && u / BIG == v / BIG then Some(pa + u % BIG) else Walk(m, r, u)
  }

  /** The table level below the page directory, for the 4K case. */
  lemma EnsurePtKeeps(s: Tables, uses: Uses, root: nat, v: nat)
    returns (uses': Uses, s': Tables, pd: nat, pt: nat)
    requires Inv(s, uses) && IsRoot(uses, root) && PtFits(s, root, v) && !BigAt(s.mem, root, v)
    ensures pd == EnsurePd(s, root, v).1 && s' == Ensure(EnsurePd(s, root, v).0, pd, I2(v)) && pt == Child(s', pd, I2(v))
    ensures Kept(s, uses, s', uses', root, PtPaths(v))
    ensures PdFor(s'.mem, root, v, pd) && pd in uses' && uses'[pd] == Table(root, [I4(v), I3(v)])
    ensures pt in uses' && uses'[pt] == Table(root, [I4(v), I3(v), I2(v)])
    ensures Present(Read(s'.mem, pd, I2(v))) && !Huge(Read(s'.mem, pd, I2(v)))
  {
    hide Walk, Ensure, Present, Huge, Frame, Shape, Open, Takes;
    var uses2 := EnsurePdKeeps(s, uses, root, v);
    var s2 := EnsurePd(s, root, v).0;
    pd := EnsurePd(s, root, v).1;
    assert !BigAt(s2.mem, root, v);
    assert MayEnsure(s2, uses2, pd, I2(v));
    EnsureKeeps(s2, uses2, pd, I2(v));
    EnsureKept(s2, uses2, pd, I2(v));
    s', uses' := Ensure(s2, pd, I2(v)), UsesAfterEnsure(s2, uses2, pd, I2(v));
    pt := Child(s', pd, I2(v));
    assert [I4(v), I3(v)] + [I2(v)] == [I4(v), I3(v), I2(v)];
    PdUndisturbed(s2.mem, s'.mem, uses2, root, v, pd, I2(v));
    KeptTrans(s, uses, s2, uses2, s', uses', root, PdPaths(v), {[I4(v), I3(v), I2(v)]});
  }

  /** The way to the page table can be built exactly if there is a page for each path that
      is not there yet. */
  lemma PtFitsIff(s: Tables, uses: Uses, root: nat, v: nat)
    requires Inv(s, uses) && IsRoot(uses, root) && !BigAt(s.mem, root, v)
    ensures var ps := Paths(uses, root); PtFits(s, root, v) <==> |s.free| + |ps| >= |ps + PtPaths(v)|
  {
    hide Walk, Huge, Frame, Present, Paths, Ensure, CanEnsure, Takes, SameOthers, Shape, Open;
    var ps := Paths(uses, root);
    PdFitsIff(s, uses, root, v);
    var two, three := ps + PdPaths(v), ps + PtPaths(v);
    assert two + {[I4(v), I3(v), I2(v)]} == three;
    if PdFits(s, root, v) {
      var uses2 := EnsurePdKeeps(s, uses, root, v);
      var (s2, pd) := EnsurePd(s, root, v);
      assert !BigAt(s2.mem, root, v);
      assert [I4(v), I3(v)] + [I2(v)] == [I4(v), I3(v), I2(v)];
      CanEnsureIff(s2, uses2, pd, I2(v));
      TakesMeans(s, uses, s2, uses2, root, PdPaths(v));
    } else {
      Subset(two, three);
    }
  }

  lemma SameWalksTrans(m: Mem, m': Mem, m'': Mem, uses: Uses, uses': Uses)
    requires SameWalks(m, m', uses) && SameWalks(m', m'', uses')
    requires forall p :: p in uses ==> p in uses' && uses'[p] == uses[p]
    ensures SameWalks(m, m'', uses)
  {
    hide Walk, BigAt;
    forall r, v: nat | IsRoot(uses, r)
      ensures Walk(m'', r, v) == Walk(m, r, v) && BigAt(m'', r, v) == BigAt(m, r, v)
    {
      assert IsRoot(uses', r);
    }
  }

  /** Mapping one 4K page translates exactly the addresses of that page to `pa`'s
      frame, whatever was there, and changes no other translation under any root. */
  lemma Map4KExact(s: Tables, uses: Uses, root: nat, v: nat, pa: nat) returns (uses': Uses)
    requires Inv(s, uses) && IsRoot(uses, root) && PtFits(s, root, v)
    requires v < VA_LIMIT && !BigAt(s.mem, root, v)
    ensures var s' := Map4K(s, root, v, pa);
            && Inv(s', uses') && Extends(uses, uses', root) && Takes(s, uses, s', uses', root, PtPaths(v))
            && Maps4K(s.mem, s'.mem, uses, root, v, Frame(pa))
            && SameSizes(s.mem, s'.mem, uses) && SameOthers(s.mem, s'.mem, uses)
  {
    hide Walk, BigAt, Frame, Present, Huge, LeafEntry, EnsurePd, Ensure, Shape, Open, SlotOk, Takes;
    var s3, pd, pt;
    uses', s3, pd, pt := EnsurePtKeeps(s, uses, root, v);
    LeafEntryDecodes(pa);
    TakesWrite(s, uses, s3, uses', root, PtPaths(v), pt, I1(v), LeafEntry(pa));
    LeafWrite(s3.mem, uses', root, v, pd, pt, LeafEntry(pa));
    forall r, u: nat | IsRoot(uses, r)
      ensures BigAt(Map4K(s, root, v, pa).mem, r, u) == BigAt(s.mem, r, u)
      ensures u < VA_LIMIT ==>
                (Walk(Map4K(s, root, v, pa).mem, r, u) ==
                 if r == root && u / PAGE == v / PAGE then Some(Frame(pa) + u % PAGE) else Walk(s.mem, r, u))
    {
      if u < VA_LIMIT { IndicesAreThePage(u, v); }
      assert IsRoot(uses', r);
    }
  }

  lemma PdUndisturbed(m: Mem, m': Mem, uses: Uses, root: nat, v: nat, pd: nat, i: nat)
    requires TreeInv(m, uses) && IsRoot(uses, root) && PdFor(m, root, v, pd)
    requires pd in uses && uses[pd] == Table(root, [I4(v), I3(v)])
    requires forall p, j :: p in uses && 0 <= j < 512 && (p != pd || j != i) ==> p in m' && m'[p][j] == m[p][j]
    ensures PdFor(m', root, v, pd)
  {
    hide Shape, Open;
    assert SlotOk(uses, uses[root], I4(v), m[root][I4(v)]);
    var p3 := Frame(m[root][I4(v)]);
    assert SlotOk(uses, uses[p3], I3(v), m[p3][I3(v)]);
    assert |uses[pd].path| == 2 && |uses[p3].path| == 1 && |uses[root].path| == 0;
    assert root != pd && p3 != pd;
  }

  /** No 4K table hangs below the directory slot of `v`. */
  ghost predicate NoPtAt(uses: Uses, root: nat, v: nat) {
    forall p :: p in uses ==> uses[p] != Table(root, [I4(v), I3(v), I2(v)])
  }

  lemma BigWrite(m: Mem, uses: Uses, root: nat, v: nat, pd: nat, w: nat)
    requires TreeInv(m, uses) && IsRoot(uses, root) && PdFor(m, root, v, pd) && NoPtAt(uses, root, v)
    requires pd in uses && uses[pd] == Table(root, [I4(v), I3(v)])
    requires Present(w) && Huge(w) && Plain(w)
    ensures var m' := Write(m, pd, I2(v), w);
            && TreeInv(m', uses)
            && forall r, u: nat :: IsRoot(uses, r) ==>
                 var here := r == root && (I4(u), I3(u), I2(u)) == (I4(v), I3(v), I2(v));
                 && BigAt(m', r, u) == (here || BigAt(m, r, u))
                 && Walk(m', r, u) == if here then Some(BigFrame(w) + u % BIG) else Walk(m, r, u)
  {
    hide Shape, Open;
    var m' := Write(m, pd, I2(v), w);
    assert forall p, j :: p in uses && 0 <= j < 512 && (p != pd || j != I2(v)) ==> m'[p][j] == m[p][j];
    forall p, i | p in uses && uses[p].Table? && |uses[p].path| < 3 && 0 <= i < 512
      ensures SlotOk(uses, uses[p], i, m'[p][i])
    {
      assert SlotOk(uses, uses[p], i, m[p][i]);
    }
    assert uses[pd].path + [I2(v)] == [I4(v), I3(v), I2(v)];
    ShapeKept(m, m', uses);
    OpenStays(m, m', uses, uses);
    PdUndisturbed(m, m', uses, root, v, pd, I2(v));
    forall r, u: nat | IsRoot(uses, r)
      ensures var here := r == root && (I4(u), I3(u), I2(u)) == (I4(v), I3(v), I2(v));
              && BigAt(m', r, u) == (here || BigAt(m, r, u))
              && Walk(m', r, u) == if here then Some(BigFrame(w) + u % BIG) else Walk(m, r, u)
    {
      BigWriteWalk(m, m', uses, root, v, pd, w, r, u);
    }
  }

  lemma BigWriteWalk(m: Mem, m': Mem, uses: Uses, root: nat, v: nat, pd: nat, w: nat, r: nat, u: nat)
    requires TreeInv(m, uses) && IsRoot(uses, r) && PdFor(m', root, v, pd)
    requires pd in uses && uses[pd] == Table(root, [I4(v), I3(v)])
    requires forall p, j :: p in uses && 0 <= j < 512 && (p != pd || j != I2(v)) ==> p in m' && m'[p][j] == m[p][j]
    requires pd in m' && m'[pd][I2(v)] == w && Present(w) && Huge(w)
    ensures var here := r == root && (I4(u), I3(u), I2(u)) == (I4(v), I3(v), I2(v));
            && BigAt(m', r, u) == (here || BigAt(m, r, u))
            && Walk(m', r, u) == if here then Some(BigFrame(w) + u % BIG) else Walk(m, r, u)
  {
    hide Present, Huge, Frame, BigFrame, I1, I2, I3, I4, Shape, Open;
    Visits(m, uses, r, u);
    assert uses[pd].path[0] == I4(v) && uses[pd].path[1] == I3(v);
  }

  /** Mapping one 2MB page over a slot that holds no 4K table. */
  lemma Map2MExact(s: Tables, uses: Uses, root: nat, v: nat, pa: nat) returns (uses': Uses)
    requires Inv(s, uses) && IsRoot(uses, root) && PdFits(s, root, v)
    requires v < VA_LIMIT && (forall p :: p in uses && uses[p].Table? ==> |uses[p].path| < 3)
    ensures var s' := Map2M(s, root, v, pa);
            && Inv(s', uses') && Extends(uses, uses', root) && Takes(s, uses, s', uses', root, PdPaths(v))
            && (forall p :: p in uses' && uses'[p].Table? ==> |uses'[p].path| < 3)
            && Maps2M(s.mem, s'.mem, uses, root, v, BigFrame(pa))
            && forall u: nat :: u < VA_LIMIT ==>
                 (BigAt(s'.mem, root, u) <==> u / BIG == v / BIG || BigAt(s.mem, root, u))
  {
    hide Walk, BigAt, Present, Huge, BigFrame, EnsurePd, Shape, Open, SlotOk, Takes;
    uses' := EnsurePdKeeps(s, uses, root, v);
    var (s2, pd) := EnsurePd(s, root, v);
    TakesWrite(s, uses, s2, uses', root, PdPaths(v), pd, I2(v), BigEntry(pa));
    BigEntryDecodes(pa);
    BigWrite(s2.mem, uses', root, v, pd, BigEntry(pa));
    forall r, u: nat | IsRoot(uses, r) && u < VA_LIMIT
      ensures Walk(Map2M(s, root, v, pa).mem, r, u) ==
              if r == root && u / BIG == v / BIG then Some(BigFrame(pa) + u % BIG) else Walk(s.mem, r, u)
      ensures r == root ==> (BigAt(Map2M(s, root, v, pa).mem, r, u) <==> u / BIG == v / BIG || BigAt(s.mem, r, u))
    {
      IndicesAreThePage(u, v);
      assert IsRoot(uses', r);
    }
  }
}
