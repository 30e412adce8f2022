/** What assigning a device leaves behind when the page allocator runs dry on the way.

    A failed allocation returns 0 and the driver goes on: a slot of the domain's tables
    leads to physical page 0, and from then on page 0 and the pages of the ranges are
    written as if they were tables.  No later write repairs that slot. */
module Starvation {
  import opened Options
  import opened Arith
  import opened PageTables
  import opened Iommu

  /** The pages that the writes of a starved assignment may stray to: page 0, and the pages
      whose addresses were written there as leaf entries. */
  function Wild(addrs: seq<nat>): set<nat> { {0} + set k | 0 <= k < |addrs| :: Frame(addrs[k]) }

  /** Present words of wild pages lead to wild pages. */
  ghost predicate Closed(m: Mem, wild: set<nat>) {
    forall p, i :: p in wild && 0 <= i < 512 && Present(Read(m, p, i)) ==> Frame(Read(m, p, i)) in wild
  }

  ghost predicate WeakSlot(uses: Uses, u: Use, i: nat, w: nat)
    requires u.Table?
  {
    Present(w) ==>
      && !Huge(w)
      && (w == TableEntry(0) || (Frame(w) in uses && uses[Frame(w)] == Table(u.root, u.path + [i])))
  }

  /** The tables of `root`, except that slots may lead to page 0. */
  ghost predicate WeakTree(m: Mem, uses: Uses, root: nat) {
    && IsRoot(uses, root)
    && (forall p :: p in uses ==> p in m)
    && (forall p, i :: p in uses && uses[p].Table? && uses[p].root == root && |uses[p].path| < 3 && 0 <= i < 512 ==>
          WeakSlot(uses, uses[p], i, m[p][i]))
  }

  /** There is no fresh page left. */
  ghost predicate Starved(t: Tables, uses: Uses, root: nat, wild: set<nat>) {
    && t.free == [] && 0 in wild && (forall p :: p in wild ==> p !in uses)
    && WeakTree(t.mem, uses, root) && Closed(t.mem, wild)
  }

  /** `p` is the table of `root` at `path`, or a stray page. */
  ghost predicate Node(uses: Uses, root: nat, wild: set<nat>, p: nat, path: seq<nat>) {
    p in wild || (p in uses && uses[p] == Table(root, path))
  }

  /** Present words of the inner tables of `root` are as they were. */
  ghost predicate Keeps(m: Mem, m': Mem, uses: Uses, root: nat) {
    forall p, i | p in uses && uses[p].Table? && uses[p].root == root && |uses[p].path| < 3 && 0 <= i < 512 ::
      Present(Read(m, p, i)) ==> Read(m', p, i) == Read(m, p, i)
  }

  /** The hardware's walk for `v` is led to page 0 as a table. */
  predicate Dead(m: Mem, root: nat, v: nat) {
    var e4 := Read(m, root, I4(v));
    && Present(e4)
    && (Frame(e4) == 0 ||
        var e3 := Read(m, Frame(e4), I3(v));
        && Present(e3)
        && (Frame(e3) == 0 ||
            var e2 := Read(m, Frame(e3), I2(v)); Present(e2) && !Huge(e2) && Frame(e2) == 0))
  }

  /** No set of tables explains such a memory. */
  lemma DeadIsNoTree(m: Mem, uses: Uses, root: nat, v: nat)
    requires Dead(m, root, v) && IsRoot(uses, root)
    ensures !TreeInv(m, uses)
  {
    hide SlotOk, Shape, Huge, Frame, Present, I2, I3, I4;
    if TreeInv(m, uses) {
      Visits(m, uses, root, v);
      assert false;
    }
  }

  lemma DeadStays(m: Mem, m': Mem, uses: Uses, root: nat, v: nat)
    requires WeakTree(m, uses, root) && Keeps(m, m', uses, root) && Dead(m, root, v)
    ensures Dead(m', root, v)
  {
    hide Huge, Frame, Present, I2, I3, I4;
    ZeroEntry();
    var e4 := Read(m, root, I4(v));
    assert WeakSlot(uses, uses[root], I4(v), e4);
    if Frame(e4) != 0 {
      var p3 := Frame(e4);
      assert uses[p3] == Table(root, [I4(v)]) by { assert [] + [I4(v)] == [I4(v)]; }
      var e3 := Read(m, p3, I3(v));
      assert WeakSlot(uses, uses[p3], I3(v), e3);
      if Frame(e3) != 0 {
        assert uses[Frame(e3)] == Table(root, [I4(v), I3(v)]) by { assert [I4(v)] + [I3(v)] == [I4(v), I3(v)]; }
      }
    }
  }

  lemma ZeroEntry()
    ensures Present(TableEntry(0)) && !Huge(TableEntry(0)) && Frame(TableEntry(0)) == 0 && !Present(0)
  {
    TableEntryDecodes(0);
  }

  // ----- One level --------------------------------------------------------

  lemma ClosedWrite(m: Mem, wild: set<nat>, t: nat, i: nat, w: nat)
    requires Closed(m, wild) && i < 512 && (Present(w) ==> Frame(w) in wild)
    ensures Closed(Write(m, t, i, w), wild)
  {
    hide Frame, Present;
    ZeroEntry();
    var m' := Write(m, t, i, w);
    forall p, j | p in wild && 0 <= j < 512 && Present(Read(m', p, j)) ensures Frame(Read(m', p, j)) in wild {
      if p != t || (j != i && t in m) {
        assert Read(m', p, j) == Read(m, p, j);
      }
    }
  }

  lemma StarvedEnsure(s: Tables, uses: Uses, root: nat, wild: set<nat>, t: nat, path: seq<nat>, i: nat)
    requires Starved(s, uses, root, wild) && Node(uses, root, wild, t, path) && |path| < 3 && i < 512
    ensures var s' := Ensure(s, t, i);
            && Starved(s', uses, root, wild) && Node(uses, root, wild, Child(s', t, i), path + [i])
            && Keeps(s.mem, s'.mem, uses, root)
            && Present(Read(s'.mem, t, i)) && (t in uses ==> !Huge(Read(s'.mem, t, i)))
            && (!CanEnsure(s, t, i) ==> Child(s', t, i) == 0)
  {
    hide Huge, Frame, Present;
    ZeroEntry();
    var s' := Ensure(s, t, i);
    if Present(Read(s.mem, t, i)) {
      if t !in wild { assert WeakSlot(uses, uses[t], i, s.mem[t][i]); }
    } else {
      assert s'.mem == Write(s.mem, t, i, TableEntry(0));
      ClosedWrite(s.mem, wild, t, i, TableEntry(0));
      forall p, j | p in uses && uses[p].Table? && uses[p].root == root && |uses[p].path| < 3 && 0 <= j < 512
        ensures WeakSlot(uses, uses[p], j, s'.mem[p][j])
      {
        assert WeakSlot(uses, uses[p], j, s.mem[p][j]);
      }
    }
  }

  /** The last write: to the page table, or to a stray page. */
  lemma StarvedLeaf(s: Tables, uses: Uses, root: nat, wild: set<nat>, pt: nat, path: seq<nat>, i: nat, pa: nat)
    requires Starved(s, uses, root, wild) && Node(uses, root, wild, pt, path) && |path| == 3 && i < 512 && Frame(pa) in wild
    ensures var s' := s.(mem := Write(s.mem, pt, i, LeafEntry(pa)));
            Starved(s', uses, root, wild) && Keeps(s.mem, s'.mem, uses, root)
  {
    hide Huge, Frame, Present, LeafEntry;
    ZeroEntry();
    LeafEntryDecodes(pa);
    ClosedWrite(s.mem, wild, pt, i, LeafEntry(pa));
    var s' := s.(mem := Write(s.mem, pt, i, LeafEntry(pa)));
    forall p, j | p in uses && uses[p].Table? && uses[p].root == root && |uses[p].path| < 3 && 0 <= j < 512
      ensures WeakSlot(uses, uses[p], j, s'.mem[p][j])
    {
      assert WeakSlot(uses, uses[p], j, s.mem[p][j]);
    }
  }

  lemma KeepsTrans(m: Mem, m': Mem, m'': Mem, uses: Uses, root: nat)
    requires Keeps(m, m', uses, root) && Keeps(m', m'', uses, root)
    ensures Keeps(m, m'', uses, root)
  {
    hide Present;
  }

  // ----- One address ------------------------------------------------------

  /** The walk as far as built has been led to page 0 as a table. */
  lemma DeadAt(m: Mem, uses: Uses, root: nat, v: nat, pdpt: nat, pd: nat, pt: nat)
    requires WeakTree(m, uses, root)
    requires Present(Read(m, root, I4(v))) && Frame(Read(m, root, I4(v))) == pdpt
    requires pdpt != 0 ==> Present(Read(m, pdpt, I3(v))) && Frame(Read(m, pdpt, I3(v))) == pd
    requires pdpt != 0 && pd != 0 ==>
               Present(Read(m, pd, I2(v))) && !Huge(Read(m, pd, I2(v))) && Frame(Read(m, pd, I2(v))) == pt
    requires pdpt == 0 || pd == 0 || pt == 0
    ensures Dead(m, root, v)
  {
  }

  /** Mapping an address in a starved state: nothing is repaired, and if a table was missing
      the walk for the address is dead. */
  lemma StarvedMap(s: Tables, uses: Uses, root: nat, wild: set<nat>, v: nat, pa: nat)
    requires Starved(s, uses, root, wild) && Frame(pa) in wild
    ensures var s' := Map4K(s, root, v, pa);
            && Starved(s', uses, root, wild) && Keeps(s.mem, s'.mem, uses, root)
            && (!PtFits(s, root, v) ==> Dead(s'.mem, root, v))
  {
    hide Huge, Frame, Present, Ensure, Starved, WeakTree, Keeps, Node, Write, CanEnsure, I1, I2, I3, I4;
    RootNode(s, uses, root, wild);
    StarvedEnsure(s, uses, root, wild, root, [], I4(v));
    var s1 := Ensure(s, root, I4(v));
    var pdpt := Child(s1, root, I4(v));
    StarvedEnsure(s1, uses, root, wild, pdpt, [] + [I4(v)], I3(v));
    var s2 := Ensure(s1, pdpt, I3(v));
    var pd := Child(s2, pdpt, I3(v));
    StarvedEnsure(s2, uses, root, wild, pd, [] + [I4(v)] + [I3(v)], I2(v));
    var s3 := Ensure(s2, pd, I2(v));
    var pt := Child(s3, pd, I2(v));
    StarvedLeaf(s3, uses, root, wild, pt, [] + [I4(v)] + [I3(v)] + [I2(v)], I1(v), pa);
    var s' := Map4K(s, root, v, pa);
    KeepsTrans(s.mem, s1.mem, s2.mem, uses, root);
    KeepsTrans(s.mem, s2.mem, s3.mem, uses, root);
    KeepsTrans(s.mem, s3.mem, s'.mem, uses, root);
    if !PtFits(s, root, v) {
      StarvedTree(s1, uses, root, wild);
      StarvedTree(s2, uses, root, wild);
      StarvedTree(s3, uses, root, wild);
      StarvedDies(s1.mem, s2.mem, s3.mem, uses, root, v, pdpt, pd, pt);
      DeadStays(s3.mem, s'.mem, uses, root, v);
    }
  }

  lemma RootNode(s: Tables, uses: Uses, root: nat, wild: set<nat>)
    requires Starved(s, uses, root, wild)
    ensures Node(uses, root, wild, root, [])
  {
  }

  lemma StarvedTree(s: Tables, uses: Uses, root: nat, wild: set<nat>)
    requires Starved(s, uses, root, wild)
    ensures WeakTree(s.mem, uses, root)
  {
  }

  lemma StarvedDies(m1: Mem, m2: Mem, m3: Mem, uses: Uses, root: nat, v: nat, pdpt: nat, pd: nat, pt: nat)
    requires WeakTree(m1, uses, root) && WeakTree(m2, uses, root) && WeakTree(m3, uses, root)
    requires Keeps(m1, m2, uses, root) && Keeps(m2, m3, uses, root)
    requires Present(Read(m1, root, I4(v))) && Frame(Read(m1, root, I4(v))) == pdpt
    requires Present(Read(m2, pdpt, I3(v))) && Frame(Read(m2, pdpt, I3(v))) == pd
    requires Present(Read(m3, pd, I2(v))) && Frame(Read(m3, pd, I2(v))) == pt && (pd in uses ==> !Huge(Read(m3, pd, I2(v))))
    requires pdpt == 0 || pd == 0 || pt == 0
    ensures Dead(m3, root, v)
  {
    hide Huge, Frame, Present, I2, I3, I4;
    ZeroEntry();
    assert WeakSlot(uses, uses[root], I4(v), m1[root][I4(v)]);
    assert [] + [I4(v)] == [I4(v)];
    if pdpt != 0 {
      assert uses[pdpt] == Table(root, [I4(v)]);
      assert WeakSlot(uses, uses[pdpt], I3(v), m2[pdpt][I3(v)]);
    }
    DeadAt(m3, uses, root, v, pdpt, pd, pt);
  }

  // ----- The allocation that fails ----------------------------------------

  ghost predicate NoBig(m: Mem, root: nat) { forall v: nat :: v < VA_LIMIT ==> !BigAt(m, root, v) }

  /** The lowest address of a 2MB region, from its three indices. */
  function AddressOf(i4: nat, i3: nat, i2: nat): nat { i4 * 0x80_0000_0000 + i3 * 0x4000_0000 + i2 * 0x20_0000 }

  lemma AddressIndices(i4: nat, i3: nat, i2: nat)
    requires i4 < 512 && i3 < 512 && i2 < 512
    ensures var v := AddressOf(i4, i3, i2); v < VA_LIMIT && I4(v) == i4 && I3(v) == i3 && I2(v) == i2
  {
    var v := AddressOf(i4, i3, i2);
    DivIs(v, 0x80_0000_0000, i4, i3 * 0x4000_0000 + i2 * 0x20_0000);
    DivIs(v, 0x4000_0000, i4 * 512 + i3, i2 * 0x20_0000);
    DivIs(v, 0x20_0000, (i4 * 512 + i3) * 512 + i2, 0);
    DivIs(i4 * 512 + i3, 512, i4, i3);
    DivIs((i4 * 512 + i3) * 512 + i2, 512, i4 * 512 + i3, i2);
  }

  /** A 2MB leaf in some directory is one the hardware finds for some address. */
  lemma HugeIsBig(m: Mem, uses: Uses, root: nat, p: nat, i: nat)
    requires TreeInv(m, uses) && IsRoot(uses, root) && i < 512
    requires p in uses && uses[p].Table? && uses[p].root == root && |uses[p].path| == 2
    requires Present(m[p][i]) && Huge(m[p][i])
    ensures !NoBig(m, root)
  {
    hide SlotOk, Huge, Frame, Present, I2, I3, I4, AddressOf;
    var path := uses[p].path;
    assert IsHooked(m, uses, p);
    var q :| HookedBy(m, uses, q, p);
    assert IsHooked(m, uses, q);
    var r :| HookedBy(m, uses, r, q);
    assert uses[r].path == [] && uses[q].path[0] == path[0];
    AddressIndices(path[0], path[1], i);
    assert BigAt(m, root, AddressOf(path[0], path[1], i));
  }

  lemma NoBigIsWeak(s: Tables, uses: Uses, root: nat)
    requires Inv(s, uses) && IsRoot(uses, root) && NoBig(s.mem, root)
    ensures WeakTree(s.mem, uses, root)
  {
    hide Huge, Frame, Present, NoBig, Shape;
    forall p, i | p in uses && uses[p].Table? && uses[p].root == root && |uses[p].path| < 3 && 0 <= i < 512
      ensures WeakSlot(uses, uses[p], i, s.mem[p][i])
    {
      assert SlotOk(uses, uses[p], i, s.mem[p][i]);
      if Present(s.mem[p][i]) && Huge(s.mem[p][i]) { HugeIsBig(s.mem, uses, root, p, i); }
    }
  }

  /** The wild pages are none of ours and lead nowhere else. */
  ghost predicate Aside(s: Tables, uses: Uses, wild: set<nat>) {
    && 0 in wild && (forall p :: p in wild ==> p !in uses && p !in s.free)
    && Closed(s.mem, wild)
  }

  lemma AsideStays(s: Tables, uses: Uses, s': Tables, uses': Uses, root: nat, new_: set<seq<nat>>, wild: set<nat>)
    requires Aside(s, uses, wild) && Takes(s, uses, s', uses', root, new_)
    ensures Aside(s', uses', wild)
  {
    hide Frame, Present, Paths;
    forall p, i | p in wild && 0 <= i < 512 && Present(Read(s'.mem, p, i)) ensures Frame(Read(s'.mem, p, i)) in wild {
      assert SamePage(s.mem, s'.mem, p);
      assert Read(s'.mem, p, i) == Read(s.mem, p, i);
    }
  }

  lemma IsStarved(s: Tables, uses: Uses, root: nat, wild: set<nat>)
    requires Inv(s, uses) && IsRoot(uses, root) && NoBig(s.mem, root) && Aside(s, uses, wild) && s.free == []
    ensures Starved(s, uses, root, wild)
  {
    hide Inv, NoBig, WeakTree, Closed;
    NoBigIsWeak(s, uses, root);
  }

  lemma NoBigStays(m: Mem, m': Mem, uses: Uses, root: nat)
    requires NoBig(m, root) && IsRoot(uses, root) && SameWalks(m, m', uses)
    ensures NoBig(m', root)
  {
    hide BigAt, Walk;
  }

  lemma Again(s: Tables, root: nat, v: nat, pa: nat)
    requires CanEnsure(s, root, I4(v))
    ensures var s1 := Ensure(s, root, I4(v));
            && (Present(Read(s1.mem, root, I4(v))) ==>
                  Map4K(s1, root, v, pa) == Map4K(s, root, v, pa) && (PtFits(s1, root, v) <==> PtFits(s, root, v)))
  {
    hide Present, Frame, Read, Write, I1, I2, I3, I4;
  }

  lemma AgainPd(s: Tables, root: nat, v: nat, pa: nat, s2: Tables, pd: nat)
    requires (s2, pd) == EnsurePd(s, root, v) && PdFits(s, root, v) && PdFor(s2.mem, root, v, pd)
    ensures Map4K(s2, root, v, pa) == Map4K(s, root, v, pa) && (PtFits(s2, root, v) <==> PtFits(s, root, v))
  {
    hide Frame, Read, Write, I1, I2, I3, I4;
  }

  /** An address for which the fresh pages do not suffice. */
  lemma StarvedFirst(s: Tables, uses: Uses, root: nat, wild: set<nat>, v: nat, pa: nat) returns (uses': Uses)
    requires Inv(s, uses) && IsRoot(uses, root) && NoBig(s.mem, root) && Aside(s, uses, wild)
    requires !PtFits(s, root, v) && Frame(pa) in wild
    ensures var s' := Map4K(s, root, v, pa); Starved(s', uses', root, wild) && Dead(s'.mem, root, v)
    ensures forall p :: p in uses ==> p in uses' && uses'[p] == uses[p]
  {
    hide Inv, NoBig, Aside, Starved, Map4K, Dead, Ensure, Frame, Present, Takes, SameWalks, PtFits, I4, I3, I2;
    uses' := uses;
    if s.free == [] {
      IsStarved(s, uses, root, wild);
      StarvedMap(s, uses, root, wild, v, pa);
    } else if !PdFits(s, root, v) {
      FirstLevel(s, uses, root, v);
      Again(s, root, v, pa);
      var s1 := Ensure(s, root, I4(v));
      uses' := UsesAfterEnsure(s, uses, root, I4(v));
      AsideStays(s, uses, s1, uses', root, {[] + [I4(v)]}, wild);
      NoBigStays(s.mem, s1.mem, uses, root);
      IsStarved(s1, uses', root, wild);
      StarvedMap(s1, uses', root, wild, v, pa);
    } else {
      uses' := EnsurePdKeeps(s, uses, root, v);
      var (s2, pd) := EnsurePd(s, root, v);
      AgainPd(s, root, v, pa, s2, pd);
      AsideStays(s, uses, s2, uses', root, PdPaths(v), wild);
      NoBigStays(s.mem, s2.mem, uses, root);
      LastLevel(s, root, v);
      IsStarved(s2, uses', root, wild);
      StarvedMap(s2, uses', root, wild, v, pa);
    }
  }

  lemma FirstLevel(s: Tables, uses: Uses, root: nat, v: nat)
    requires Inv(s, uses) && IsRoot(uses, root) && s.free != [] && !PdFits(s, root, v)
    ensures CanEnsure(s, root, I4(v)) && MayEnsure(s, uses, root, I4(v))
    ensures var s1 := Ensure(s, root, I4(v));
            && s1.free == [] && Present(Read(s1.mem, root, I4(v)))
            && Kept(s, uses, s1, UsesAfterEnsure(s, uses, root, I4(v)), root, {[] + [I4(v)]})
  {
    hide Inv, Ensure, Frame, Present, Kept, I4, I3;
    RootSlot(s, uses, root, v);
    EnsureKeeps(s, uses, root, I4(v));
    EnsureKept(s, uses, root, I4(v));
  }

  lemma LastLevel(s: Tables, root: nat, v: nat)
    requires PdFits(s, root, v) && !PtFits(s, root, v)
    ensures EnsurePd(s, root, v).0.free == []
  {
    hide Ensure, Frame, Present, I4, I3, I2;
  }

  // ----- All the addresses ------------------------------------------------

  /** If the fresh pages do not suffice for the addresses, the walk of one of them ends up
      dead. */
  lemma {:induction false} MapAllStarved(t: Tables, uses: Uses, root: nat, wild: set<nat>, addrs: seq<nat>)
    returns (uses': Uses, v: nat)
    requires Inv(t, uses) && IsRoot(uses, root) && Identity(t.mem, root, []) && Aside(t, uses, wild)
    requires forall k :: 0 <= k < |addrs| ==> addrs[k] < VA_LIMIT && Frame(addrs[k]) in wild
    requires !Affords(t, uses, root, addrs)
    ensures var t' := MapAll(t, root, addrs); Starved(t', uses', root, wild) && Dead(t'.mem, root, v)
    ensures forall p :: p in uses ==> p in uses' && uses'[p] == uses[p]
    decreases |addrs|
  {
    hide Inv, Aside, Starved, Map4K, Dead, Affords, Takes, Walk, BigAt, Frame, NoBig, WeakTree, Keeps, PtFits;
    assert addrs != [] by { AffordsNone(t, uses, root); }
    var init, a := addrs[..|addrs| - 1], addrs[|addrs| - 1];
    var t1 := MapAll(t, root, init);
    if Affords(t, uses, root, init) {
      var uses1 := MapAllExact(t, uses, root, init);
      AffordsLast(t, uses, root, addrs, t1, uses1);
      AsideStays(t, uses, t1, uses1, root, TablePaths(init), wild);
      IdentityHasNoBig(t1.mem, root, init);
      uses' := StarvedFirst(t1, uses1, root, wild, a, a);
      v := a;
    } else {
      uses', v := MapAllStarved(t, uses, root, wild, init);
      StarvedTree(t1, uses', root, wild);
      StarvedMap(t1, uses', root, wild, a, a);
      DeadStays(t1.mem, MapAll(t, root, addrs).mem, uses', root, v);
    }
  }

  lemma AffordsNone(t: Tables, uses: Uses, root: nat)
    ensures Affords(t, uses, root, [])
  {
    hide Paths;
    assert Paths(uses, root) + TablePaths([]) == Paths(uses, root);
  }

  lemma IdentityHasNoBig(m: Mem, root: nat, addrs: seq<nat>)
    requires Identity(m, root, addrs)
    ensures NoBig(m, root)
  {
    hide BigAt, Walk, Covered;
  }

  // ----- The whole assignment ---------------------------------------------

  /** Page 0 and the pages of the ranges hold no present word, and the pages of the ranges
      are neither tables nor fresh pages. */
  ghost predicate Blank(s: State, uses: Uses, addrs: seq<nat>) {
    forall p :: p in Wild(addrs) ==>
      p !in uses && p !in s.tables.free && forall i :: 0 <= i < 512 ==> !Present(Read(s.tables.mem, p, i))
  }

  lemma BlankIsAside(s: State, uses: Uses, addrs: seq<nat>, t: Tables, uses': Uses)
    requires Blank(s, uses, addrs) && s.tables.free != [] && t == Alloc(s.tables).0
    requires uses' == UsesAfterAlloc(s.tables, uses, Table(s.tables.free[0], []))
    ensures Aside(t, uses', Wild(addrs))
  {
    hide Frame, Present;
    var wild := Wild(addrs);
    forall p | p in wild ensures p !in uses' && p !in t.free && (forall i :: 0 <= i < 512 ==> Read(t.mem, p, i) == Read(s.tables.mem, p, i)) {
      assert p != s.tables.free[0];
    }
  }

  /** A bus without a context table, and no page to build one from. */
  lemma ContextMissing(s: State, b: Bdf, pml4: nat, s': State, uses': Uses)
    requires |s.busContext| == 256 && IsBdf(b) && s.busContext[b.bus] == 0 && s.tables.free == []
    requires s' == Install(WithContext(s, b.bus), b, pml4)
    ensures !Good(s', uses')
  {
    hide Walk, BigAt, Slots, AllApart, Cache, SlotOk, Shape, FreeOk;
    if s.root != 0 {
      assert Read(s'.tables.mem, s.root, 2 * b.bus) == 1;
      assert !BusOk(s', uses', b.bus);
    }
  }

  /** Writing a context entry does not revive a dead walk. */
  lemma InstallStaysDead(s: State, uses: Uses, b: Bdf, pml4: nat, root: nat, v: nat)
    requires |s.busContext| == 256 && IsBdf(b) && WeakTree(s.tables.mem, uses, root) && Dead(s.tables.mem, root, v)
    requires s.busContext[b.bus] in uses && !uses[s.busContext[b.bus]].Table?
    ensures Dead(Install(s, b, pml4).tables.mem, root, v)
  {
    hide Present, Frame, Huge, Dead;
    DeadStays(s.tables.mem, Install(s, b, pml4).tables.mem, uses, root, v);
  }

  /** The tables of the domain could not be built. */
  lemma DomainStarved(s: State, uses: Uses, b: Bdf, ranges: seq<Range>, s': State, uses': Uses)
    requires Good(s, uses) && IsBdf(b) && InReach(ranges) && s' == Assign(s, b, ranges) && Blank(s, uses, PagesOf(ranges))
    requires s.tables.free != [] && |s.tables.free| < 1 + |TablePaths(PagesOf(ranges))|
    ensures !Good(s', uses')
  {
    hide Inv, Slot, Walk, BigAt, Slots, AllApart, Cache, MapAll, Install, Starved, Dead, Aside, Blank, Wild, WeakTree, Affords, PagesOf, TablePaths, Frame;
    var (t1, pml4) := Alloc(s.tables);
    var addrs := PagesOf(ranges);
    var uses1 := UsesAfterAlloc(s.tables, uses, Table(pml4, []));
    AllocKeeps(s.tables, uses, Table(pml4, []));
    FreshRoot(s.tables, uses, addrs);
    BlankIsAside(s, uses, addrs, t1, uses1);
    InWild(addrs);
    var uses2, v := MapAllStarved(t1, uses1, pml4, Wild(addrs), addrs);
    var s1 := s.(tables := MapAll(t1, pml4, addrs));
    StarvedFree(s1.tables, uses2, pml4, Wild(addrs));
    if s.busContext[b.bus] == 0 {
      ContextMissing(s1, b, pml4, s', uses');
    } else {
      assert BusOk(s, uses, b.bus);
      NotFresh(s.tables, uses, s.busContext[b.bus]);
      StarvedTree(s1.tables, uses2, pml4, Wild(addrs));
      InstallStaysDead(s1, uses2, b, pml4, pml4, v);
      DeadIsBad(s1, b, pml4, s', uses', v);
    }
  }

  lemma DeadIsBad(s: State, b: Bdf, pml4: nat, s': State, uses': Uses, v: nat)
    requires |s.busContext| == 256 && IsBdf(b) && s.busContext[b.bus] != 0 && PageAddr(pml4)
    requires s' == Install(s, b, pml4) && Dead(s'.tables.mem, pml4, v)
    ensures !Good(s', uses')
  {
    hide Dead, TreeInv, Slots, AllApart, Cache, Install, ContextOf;
    if Good(s', uses') {
      EntryWritten(s, uses', b, pml4, s');
      DeadIsNoTree(s'.tables.mem, uses', pml4, v);
      assert false;
    }
  }

  lemma InWild(addrs: seq<nat>)
    ensures forall k :: 0 <= k < |addrs| ==> Frame(addrs[k]) in Wild(addrs)
  {
    hide Frame;
  }

  lemma StarvedFree(t: Tables, uses: Uses, root: nat, wild: set<nat>)
    requires Starved(t, uses, root, wild)
    ensures t.free == []
  {
  }

  lemma NotFresh(t: Tables, uses: Uses, p: nat)
    requires Inv(t, uses) && t.free != [] && p in uses
    ensures p != t.free[0] && PageAddr(t.free[0])
  {
    hide TreeInv;
  }

  /** A pool that is short of `Needed`, or a domain counter at its end, always breaks the
      state. */
  lemma ShortIsBad(s: State, uses: Uses, b: Bdf, ranges: seq<Range>, s': State, uses': Uses)
    requires Good(s, uses) && IsBdf(b) && InReach(ranges) && s' == Assign(s, b, ranges) && Blank(s, uses, PagesOf(ranges))
    requires !Enough(s, b, ranges) || s.nextDomain + 1 >= DOMAINS
    ensures !Good(s', uses')
  {
    hide Inv, Slot, Walk, BigAt, Slots, AllApart, Cache, Buses, MapAll, Install, Blank, PagesOf, TablePaths, InReach, ContextOf;
    var (t1, pml4) := Alloc(s.tables);
    var addrs := PagesOf(ranges);
    var s1 := s.(tables := MapAll(t1, pml4, addrs));
    if Good(s', uses') {
      if s.tables.free != [] && |s.tables.free| < 1 + |TablePaths(addrs)| {
        DomainStarved(s, uses, b, ranges, s', uses');
      } else if s.busContext[b.bus] == 0 && s1.tables.free == [] {
        ContextMissing(s1, b, pml4, s', uses');
      } else {
        assert s.tables.free != [] ==> PageAddr(pml4) by { if s.tables.free != [] { FreshIsPage(s.tables, uses); } }
        assert s1.tables.free != [] ==> s1.tables.free[0] != 0 by { LeftIsPage(s.tables, uses, pml4, addrs); }
        EntryWritten(WithContext(s1, b.bus), uses', b, pml4, s');
        var s2, uses2 := DomainBuilt(s, uses, ranges);
      }
      assert false;
    }
  }

  lemma FreshIsPage(t: Tables, uses: Uses)
    requires Inv(t, uses) && t.free != []
    ensures PageAddr(t.free[0])
  {
    hide TreeInv;
  }

  lemma LeftIsPage(t: Tables, uses: Uses, root: nat, addrs: seq<nat>)
    requires Inv(t, uses)
    ensures var left := MapAll(Alloc(t).0, root, addrs).free; left != [] ==> left[0] != 0
  {
    hide TreeInv, MapAll;
    AllocLeft(t);
    MapAllLeft(Alloc(t).0, root, addrs);
    var left := MapAll(Alloc(t).0, root, addrs).free;
    if left != [] { assert left[0] in t.free; }
  }

  /** `assign_device` keeps the IOMMU in order if and only if the allocator has a page for
      the root, for every table under it and for a missing context table, and the domain ids
      are not used up; where page 0 and the pages of the ranges are blank there is no way at
      all to read the result as a good state. */
  lemma AssignSoundIff(s: State, uses: Uses, b: Bdf, ranges: seq<Range>, s': State)
    requires Good(s, uses) && IsBdf(b) && InReach(ranges) && s' == Assign(s, b, ranges) && Blank(s, uses, PagesOf(ranges))
    ensures (exists uses' :: Good(s', uses')) <==> Enough(s, b, ranges) && s.nextDomain + 1 < DOMAINS
  {
    hide Good, InReach, Assign, Enough, Blank, OthersSame, ContextOf, Identity, FromPool;
    if Enough(s, b, ranges) && s.nextDomain + 1 < DOMAINS {
      var uses' := AssignBuilds(s, uses, b, ranges, s');
    } else {
      forall uses' ensures !Good(s', uses') { ShortIsBad(s, uses, b, ranges, s', uses'); }
    }
  }

  // ----- Why the pages have to be blank -----------------------------------

  /** One page is left and three more are needed, but words that happen to be on page 0 lead
      the last write back to the slot that was spoilt.  It now holds the address of the
      blank page that was to be mapped, which passes for a table: the state is a good one
      after all, although the assignment has not succeeded. */
  lemma StrayWriteHidesIt(s: State, uses: Uses, b: Bdf, root: nat, a: nat, s': State) returns (uses': Uses)
    requires Good(s, uses) && IsBdf(b) && s.busContext[b.bus] != 0 && s.nextDomain + 1 < DOMAINS && s.tables.free == [root]
    requires a == 0x4040_0000 && a !in uses && a != root && a in s.tables.mem && s.tables.mem[a] == ZeroPage()
    requires Read(s.tables.mem, 0, 1) == 3 && Read(s.tables.mem, 0, 2) == TableEntry(root)
    requires s' == Assign(s, b, [Range(a, 0x1000)])
    ensures Good(s', uses') && !Enough(s, b, [Range(a, 0x1000)])
    ensures !Succeeds(s, uses, b, [Range(a, 0x1000)], s', uses')
  {
    hide Good, PagesOf, TablePaths, Map4K, MapAll, Install, WithContext, TableEntry, ContextOf, Identity, FromPool, Slot, Walk, BigAt;
    var r, t1 := Range(a, 0x1000), Alloc(s.tables).0;
    OnePage(r);
    OneAddress(t1, root, a);
    var t2 := Map4K(t1, root, a, a);
    var uses2 := StrayTables(s, uses, root, a, t2);
    var s3;
    uses', s3 := Hooked(s.(tables := t2), uses2, b, root, s');
    if Succeeds(s, uses, b, [r], s', uses') {
      SuccessNeedsPages(s, uses, b, [r], s', uses');
      assert false;
    }
  }

  lemma OnePage(r: Range)
    requires r.base + 0x1000 <= VA_LIMIT && r.len == 0x1000
    ensures PagesOf([r]) == [r.base] && InReach([r])
  {
    assert [r][..0] == [];
    RangePageAt(r, 0);
    assert PagesOf([r]) == [] + RangePages(r);
  }

  lemma OneAddress(t: Tables, root: nat, a: nat)
    ensures MapAll(t, root, [a]) == Map4K(t, root, a, a) && |TablePaths([a])| == 3
  {
    hide Map4K, I4, I3, I2;
    assert [a][..0] == [];
    assert TablePaths([a]) == PtPaths(a);
  }

  /** The stray writes amount to hooking page `a` into the root. */
  lemma StrayTables(s: State, uses: Uses, root: nat, a: nat, t2: Tables) returns (uses2: Uses)
    requires Good(s, uses) && s.tables.free == [root]
    requires a == 0x4040_0000 && a !in uses && a != root && a in s.tables.mem && s.tables.mem[a] == ZeroPage()
    requires Read(s.tables.mem, 0, 1) == 3 && Read(s.tables.mem, 0, 2) == TableEntry(root)
    requires t2 == Map4K(Alloc(s.tables).0, root, a, a)
    ensures Good(s.(tables := t2), uses2) && Detached(s.(tables := t2), root) && IsRoot(uses2, root)
  {
    hide Walk, BigAt, Slot, Buses, AllApart, Cache, TreeInv, Map4K, Ensure, OtherRoots, SameWalks, SameOthers, TableEntry;
    var t1 := Alloc(s.tables).0;
    var uses1 := UsesAfterAlloc(s.tables, uses, Table(root, []));
    AllocKeeps(s.tables, uses, Table(root, []));
    UnusedIsDetached(s, uses, root);
    NoneMapped(s.tables.mem, t1.mem, uses, root);
    TablesChange(s, uses, t1, uses1, root);
    var spare := Tables(t1.mem, [a]);
    var s1 := s.(tables := spare);
    SpareIsGood(s.(tables := t1), uses1, root, a, s1);
    StrayMemory(t1, root, a, spare, t2);
    assert MayEnsure(spare, uses1, root, 0) by { EmptyRoot(spare, uses1, root, a); }
    EnsureKeeps(spare, uses1, root, 0);
    uses2 := UsesAfterEnsure(spare, uses1, root, 0);
    OthersWalk(spare.mem, t2.mem, uses1, root);
    TablesChange(s1, uses1, t2, uses2, root);
    assert s.(tables := t2) == s1.(tables := t2);
  }

  lemma OthersWalk(m: Mem, m': Mem, uses: Uses, root: nat)
    requires SameWalks(m, m', uses)
    ensures OtherRoots(m, m', uses, root)
  {
    hide Walk, BigAt;
  }

  lemma SpareIsGood(s: State, uses: Uses, root: nat, a: nat, s1: State)
    requires Good(s, uses) && Detached(s, root) && s1 == s.(tables := Tables(s.tables.mem, [a])) && a !in uses && a == 0x4040_0000
    ensures Good(s1, uses) && Detached(s1, root)
  {
    hide Walk, BigAt, Slot, TreeInv;
    forall bus | 0 <= bus < 256 ensures BusOk(s1, uses, bus) { assert BusOk(s, uses, bus); }
    forall bus, i | 0 <= bus < 256 && 0 <= i < 256 ensures SameEntry(s, s1, bus, i) { }
    assert SameEntry(s, s1, 0, 0);
    StepGood(s, uses, s1, uses, 0, 0);
  }

  lemma EmptyRoot(t: Tables, uses: Uses, root: nat, a: nat)
    requires t.free == [a] && root in t.mem && t.mem[root] == ZeroPage() && IsRoot(uses, root)
    ensures MayEnsure(t, uses, root, 0)
  {
  }

  lemma ThatIndices()
    ensures I4(0x4040_0000) == 0 && I3(0x4040_0000) == 1 && I2(0x4040_0000) == 2 && I1(0x4040_0000) == 0
    ensures LeafEntry(0x4040_0000) == TableEntry(0x4040_0000) && TableEntry(0) == 3
  {
  }

  lemma StrayMemory(t1: Tables, root: nat, a: nat, spare: Tables, t2: Tables)
    requires t1.free == [] && PageAddr(root) && root in t1.mem && t1.mem[root] == ZeroPage() && spare == Tables(t1.mem, [a])
    requires a == 0x4040_0000 && a != root && a in t1.mem && t1.mem[a] == ZeroPage()
    requires Read(t1.mem, 0, 1) == 3 && Read(t1.mem, 0, 2) == TableEntry(root)
    requires t2 == Map4K(t1, root, a, a)
    ensures t2 == Ensure(spare, root, 0)
  {
    hide Ensure, Child, Present, LeafEntry, TableEntry, I1, I2, I3, I4;
    ThatIndices();
    ZeroEntry();
    EmptyEnsure(t1, root);
    var s1 := Ensure(t1, root, 0);
    FullSlot(s1, 0, 1, 0);
    FullSlot(s1, 0, 2, root);
    assert t2.mem == Write(s1.mem, root, 0, TableEntry(a));
    SpareEnsure(spare, root, a);
    assert ZeroPage()[0 := 3][0 := TableEntry(a)] == ZeroPage()[0 := TableEntry(a)];
    assert t2.mem == t1.mem[root := ZeroPage()[0 := TableEntry(a)]];
    assert t1.mem[a := ZeroPage()] == t1.mem;
  }

  lemma FullSlot(s: Tables, t: nat, i: nat, p: nat)
    requires i < 512 && (p == 0 || PageAddr(p)) && Read(s.mem, t, i) == TableEntry(p)
    ensures Ensure(s, t, i) == s && Child(s, t, i) == p
  {
    TableEntryDecodes(p);
  }

  lemma SpareEnsure(spare: Tables, root: nat, a: nat)
    requires spare.free == [a] && root in spare.mem && spare.mem[root] == ZeroPage() && a != root
    ensures Ensure(spare, root, 0) ==
            Tables(spare.mem[a := ZeroPage()][root := ZeroPage()[0 := TableEntry(a)]], [])
  {
    hide TableEntry;
  }

  /** Two fresh pages, one for the root table and one for the domain's root: the device is
      given one page at 0x5000 and reaches its own tables through address 0. */
  lemma StarvedDeviceReachesTables(m: Mem, s: State, b: Bdf, s': State)
    requires 0 !in m && s == Init(Tables(m, [0x1000, 0x2000])) && b == Bdf(0, 0, 0)
    requires s' == Assign(s, b, [Range(0x5000, 0x1000)])
    ensures Good(s, map[0x1000 := RootTable]) && !Enough(s, b, [Range(0x5000, 0x1000)])
    ensures ContextOf(s', b) == Some(Context(0x2000, 1)) && !OnRanges([Range(0x5000, 0x1000)], 0)
    ensures Reaches(s', b, 0, 0x2000)
  {
    hide Good, Reaches, ContextOf, PagesOf, TablePaths, Map4K, MapAll, Assign, Install, Init;
    var r := Range(0x5000, 0x1000);
    TwoPages(m, s);
    OnePage(r);
    OneAddress(Alloc(s.tables).0, 0x2000, 0x5000);
    var t := Map4K(Alloc(s.tables).0, 0x2000, 0x5000, 0x5000);
    StarvedWrites(Alloc(s.tables).0, t);
    assert s' == Install(WithContext(s.(tables := t), 0), b, 0x2000) by { AssignIs(s, b, r, s'); }
    StarvedEntry(s.(tables := t), b, s');
    StarvedWalk(s');
  }

  lemma AssignIs(s: State, b: Bdf, r: Range, s': State)
    requires |s.busContext| == 256 && IsBdf(b) && b.bus == 0 && s' == Assign(s, b, [r]) && s.tables.free == [0x2000]
    requires PagesOf([r]) == [0x5000]
    requires MapAll(Alloc(s.tables).0, 0x2000, [0x5000]) == Map4K(Alloc(s.tables).0, 0x2000, 0x5000, 0x5000)
    ensures s' == Install(WithContext(s.(tables := Map4K(Alloc(s.tables).0, 0x2000, 0x5000, 0x5000)), 0), b, 0x2000)
  {
    hide PagesOf, MapAll, Map4K, Install, WithContext;
  }

  lemma TwoPages(m: Mem, s: State)
    requires 0 !in m && s == Init(Tables(m, [0x1000, 0x2000]))
    ensures Good(s, map[0x1000 := RootTable])
    ensures s.root == 0x1000 && |s.busContext| == 256 && s.busContext[0] == 0 && s.nextDomain == 0 && s.iotlb == map[]
    ensures s.tables.free == [0x2000] && 0 !in s.tables.mem
  {
    hide Good, Reaches;
    InitGood(Tables(m, [0x1000, 0x2000]));
  }

  lemma EmptyEnsure(s: Tables, t: nat)
    requires s.free == [] && !Present(Read(s.mem, t, 0))
    ensures Ensure(s, t, 0) == s.(mem := Write(s.mem, t, 0, 3)) && Child(Ensure(s, t, 0), t, 0) == 0
  {
    hide Present, Frame;
    ZeroEntry();
  }

  lemma Indices()
    ensures I4(0x5000) == 0 && I3(0x5000) == 0 && I2(0x5000) == 0 && I1(0x5000) == 5 && LeafEntry(0x5000) == 0x5003
    ensures I4(0) == 0 && I3(0) == 0 && I2(0) == 0 && I1(0) == 0
  {
  }

  /** Mapping 0x5000 with no page left: the domain's root leads to page 0, and page 0 to
      itself. */
  lemma StarvedWrites(s: Tables, t: Tables)
    requires s.free == [] && 0 !in s.mem && Read(s.mem, 0x2000, 0) == 0 && t == Map4K(s, 0x2000, 0x5000, 0x5000)
    ensures t.free == [] && Read(t.mem, 0x2000, 0) == 3 && Read(t.mem, 0, 0) == 3
  {
    hide Ensure, Child, Present, LeafEntry, I1, I2, I3, I4;
    Indices();
    ZeroEntry();
    EmptyEnsure(s, 0x2000);
    var s1 := Ensure(s, 0x2000, 0);
    EmptyEnsure(s1, 0);
    var s2 := Ensure(s1, 0, 0);
    Taken(s2);
  }

  lemma Taken(s: Tables)
    requires Read(s.mem, 0, 0) == 3
    ensures Ensure(s, 0, 0) == s && Child(s, 0, 0) == 0
  {
    hide Present, Frame;
    ZeroEntry();
  }

  /** The context entry goes to page 0 as well. */
  lemma StarvedEntry(s: State, b: Bdf, s': State)
    requires s.root == 0x1000 && |s.busContext| == 256 && s.busContext[0] == 0 && s.nextDomain == 0
    requires s.tables.free == [] && Read(s.tables.mem, 0x2000, 0) == 3 && b == Bdf(0, 0, 0)
    requires s' == Install(WithContext(s, 0), b, 0x2000)
    ensures s'.root == 0x1000 && Read(s'.tables.mem, 0x1000, 0) == 1 && Read(s'.tables.mem, 0x2000, 0) == 3
    ensures Read(s'.tables.mem, 0, 0) == 0x2001 && Read(s'.tables.mem, 0, 1) == 258
  {
  }

  lemma StarvedWalk(s: State)
    requires s.root == 0x1000 && Read(s.tables.mem, 0x1000, 0) == 1 && Read(s.tables.mem, 0x2000, 0) == 3
    requires Read(s.tables.mem, 0, 0) == 0x2001 && Read(s.tables.mem, 0, 1) == 258
    ensures ContextOf(s, Bdf(0, 0, 0)) == Some(Context(0x2000, 1)) && Reaches(s, Bdf(0, 0, 0), 0, 0x2000)
  {
    hide Walk, Slot, Read;
    LoopEntry(s.tables.mem, 0x1000, 0x2000);
    LoopWalk(s.tables.mem, 0x2000, 0);
  }

  lemma LoopEntry(m: Mem, rootTable: nat, root: nat)
    requires Read(m, rootTable, 0) == 1 && Read(m, 0, 0) == root + 1 && Read(m, 0, 1) == 258 && PageAddr(root)
    ensures Slot(m, rootTable, 0, 0) == Some(Context(root, 1))
  {
    hide Present, Frame, Read;
    ContextEntryDecodes(0);
    ContextEntryDecodes(root);
  }

  /** A root that leads to page 0, and page 0 to the root: every other step of the walk
      comes back to it. */
  lemma LoopWalk(m: Mem, root: nat, v: nat)
    requires Read(m, root, 0) == 3 && Read(m, 0, 0) == root + 1 && PageAddr(root) && v == 0
    ensures Walk(m, root, v) == Some(root)
  {
    hide Present, Huge, Frame, Read, I1, I2, I3, I4;
    Indices();
    ZeroEntry();
    EntryDecodes(root, 1);
    ContextEntryDecodes(root);
  }
}
